/**
 The read-only review of held claims, and how far it agrees with the command
 (apps/api/src/cli/gst-verification-reconciliation.ts:149-254, 696-769).
 */
module GstReview {
  import opened Prelude
  import opened GstClaims

  datatype Readiness = Blocked | Resolved | EligibleForEvidence | StillYoung(age: int) | NeedsAssessment

  datatype Row = Row(
    operationId: OpId, outcome: Outcome, fingerprint: Option<string>, flags: seq<Anomaly>, readiness: Readiness)

  datatype Snapshot = Snapshot(activeClaims: nat, held: seq<Row>, anomalies: seq<Row>, released: seq<Row>)

  function BuildRow(digest: string -> string, db: Db, id: OpId, now: int): Row
    requires id in db.operations
  {
    var op := db.operations[id];
    var claim := ClaimOf(db.claims, id);
    var flags := AnomalyFlags(op, claim, WasReleased(db.audit, id));
    var readiness :=
      if flags != [] then Blocked
      else if claim.None? then Resolved
      else if op.outcome.Uncertain? then EligibleForEvidence
      else if op.dispatchedAt.Some? && MinutesBetween(now, op.dispatchedAt.value) < DISPATCHED_MIN_AGE_MINUTES
        then StillYoung(MinutesBetween(now, op.dispatchedAt.value))
      else NeedsAssessment;
    Row(id, op.outcome, if claim.Some? then Some(digest(claim.value.key)) else None, flags, readiness)
  }

  /** The operations the review fetches, out of the table in the order `ids`. */
  function Fetched(db: Db, ids: seq<OpId>, held: bool): seq<OpId>
    requires forall id <- ids :: id in db.operations
  {
    if ids == [] then []
    else
      var op := db.operations[ids[0]];
      var take := if held then Held(op.outcome) else !Held(op.outcome) && ClaimOf(db.claims, ids[0]).Some?;
      (if take then [ids[0]] else []) + Fetched(db, ids[1..], held)
  }

  function Rows(digest: string -> string, db: Db, ids: seq<OpId>, now: int): (rows: seq<Row>)
    requires forall id <- ids :: id in db.operations
    ensures |rows| == |ids| && forall n | 0 <= n < |ids| :: rows[n] == BuildRow(digest, db, ids[n], now)
  {
    seq(|ids|, n requires 0 <= n < |ids| => BuildRow(digest, db, ids[n], now))
  }

  function Select(rows: seq<Row>, wanted: Row -> bool): (chosen: seq<Row>)
    ensures forall r :: r in chosen <==> r in rows && wanted(r)
  {
    if rows == [] then []
    else
      assert rows == [rows[0]] + rows[1..];
      (if wanted(rows[0]) then [rows[0]] else []) + Select(rows[1..], wanted)
  }

  predicate IsHeld(r: Row) { r.flags == [] && r.fingerprint.Some? }
  predicate IsAnomaly(r: Row) { r.flags != [] }
  predicate IsReleased(r: Row) { r.flags == [] && r.fingerprint.None? }

  /** loadReviewSnapshot; `ids` is the operation table (or the one requested row) in any order. */
  function Review(digest: string -> string, db: Db, ids: seq<OpId>, now: int): Snapshot
    requires forall id <- ids :: id in db.operations
  {
    FetchedAreListed(db, ids, true);
    FetchedAreListed(db, ids, false);
    var rows := Rows(digest, db, Fetched(db, ids, true) + Fetched(db, ids, false), now);
    Snapshot(|db.claims|, Select(rows, IsHeld), Select(rows, IsAnomaly), Select(rows, IsReleased))
  }

  lemma {:induction false} FetchedAreListed(db: Db, ids: seq<OpId>, held: bool)
    requires forall id <- ids :: id in db.operations
    ensures forall id :: id in Fetched(db, ids, held) <==>
              id in ids && if held then Held(db.operations[id].outcome)
                           else !Held(db.operations[id].outcome) && ClaimOf(db.claims, id).Some?
  {
    if ids != [] {
      FetchedAreListed(db, ids[1..], held);
      assert ids == [ids[0]] + ids[1..];
    }
  }

  /** A reviewed row is the row of a fetched operation. */
  lemma RowOrigin(digest: string -> string, db: Db, ids: seq<OpId>, now: int, row: Row)
    requires forall id <- ids :: id in db.operations
    ensures var s := Review(digest, db, ids, now);
            row in s.held + s.anomalies + s.released ==>
              && row.operationId in ids && row == BuildRow(digest, db, row.operationId, now)
              && (Held(row.outcome) || row.fingerprint.Some?)
              && (row in s.held <==> IsHeld(row)) && (row in s.anomalies <==> IsAnomaly(row))
              && (row in s.released <==> IsReleased(row))
  {
    FetchedAreListed(db, ids, true);
    FetchedAreListed(db, ids, false);
  }

  lemma FlaggedIsRefused(digest: string -> string, db: Db, i: Input, now: int)
    requires i.operationId in db.operations
    requires var claim := ClaimOf(db.claims, i.operationId);
             || claim.None?
             || AnomalyFlags(db.operations[i.operationId], claim, WasReleased(db.audit, i.operationId)) != []
    ensures Reconcile(digest, db, i, now).1.Err?
  {
  }

  /**
   On the same tables, whatever decision, evidence and operator are given: a row listed as
   an anomaly or as released is refused.
   */
  lemma AnomaliesAndReleasedAreRefused(
    digest: string -> string, db: Db, ids: seq<OpId>, now: int, row: Row, i: Input, later: int)
    requires forall id <- ids :: id in db.operations
    requires var s := Review(digest, db, ids, now); row in s.anomalies + s.released
    requires i.operationId == row.operationId
    ensures Reconcile(digest, db, i, later).1.Err?
  {
    RowOrigin(digest, db, ids, now, row);
    FlaggedIsRefused(digest, db, i, later);
  }

  /** What it takes to be listed as held. */
  lemma HeldMeans(digest: string -> string, db: Db, ids: seq<OpId>, now: int, row: Row)
    requires forall id <- ids :: id in db.operations
    requires row in Review(digest, db, ids, now).held
    ensures row.operationId in db.operations
    ensures var op := db.operations[row.operationId]; var claim := ClaimOf(db.claims, row.operationId);
            && Held(op.outcome) && row.outcome == op.outcome
            && claim.Some? && claim.value.key == ClaimKeyFor(op) && row.fingerprint == Some(digest(claim.value.key))
            && AnomalyFlags(op, claim, WasReleased(db.audit, row.operationId)) == []
  {
    RowOrigin(digest, db, ids, now, row);
    var op := db.operations[row.operationId];
    var claim := ClaimOf(db.claims, row.operationId);
    assert !Flagged(ClaimOnNonHeldOutcome, op, claim, WasReleased(db.audit, row.operationId));
    assert !Flagged(ClaimKeyMismatch, op, claim, WasReleased(db.audit, row.operationId));
  }

  /** The command's refusals that contradict a held row. */
  const CLAIM_REFUSALS: set<Refusal> := {NoSuchOperation, NotHeld, NoClaim, KeyMismatch, Anomalous, ClaimChanged}

  lemma OtherRefusals(op: Operation, releasedBefore: bool, users: seq<User>, i: Input, now: int)
    ensures var r := InputRefusal(i); r.Some? ==> r.value !in CLAIM_REFUSALS
    ensures var r := OperatorRefusal(users, i.operatorEmail); r.Some? ==> r.value !in CLAIM_REFUSALS
    ensures var r := ReleaseRefusal(op, releasedBefore, i, now); r.Some? ==> r.value !in CLAIM_REFUSALS
  {
  }

  lemma SoundClaimIsNotRefused(digest: string -> string, db: Db, i: Input, now: int, op: Operation, claim: Claim)
    requires i.operationId in db.operations && db.operations[i.operationId] == op && Held(op.outcome)
    requires ClaimOf(db.claims, i.operationId) == Some(claim) && claim.key == ClaimKeyFor(op)
    requires AnomalyFlags(op, Some(claim), WasReleased(db.audit, i.operationId)) == []
    ensures var r := Assess(digest, db, i, now); r.Err? ==> r.error !in CLAIM_REFUSALS
  {
    OtherRefusals(op, WasReleased(db.audit, i.operationId), db.users, i, now);
  }

  /** A row listed as held is never refused for its claim or for an anomaly. */
  lemma HeldRowsKeepTheirClaim(
    digest: string -> string, db: Db, ids: seq<OpId>, now: int, row: Row, i: Input, later: int)
    requires (forall id <- ids :: id in db.operations) && KeysHold(db)
    requires row in Review(digest, db, ids, now).held && i.operationId == row.operationId
    ensures var r := Reconcile(digest, db, i, later).1; r.Err? ==> r.error !in CLAIM_REFUSALS
  {
    HeldMeans(digest, db, ids, now, row);
    var op, claim := db.operations[row.operationId], ClaimOf(db.claims, row.operationId);
    SoundClaimIsNotRefused(digest, db, i, later, op, claim.value);
    OnlyGuardsRefuse(digest, db, i, later);
  }

  /** The audit-only command on a held row, filled in from the review. */
  function AuditOnly(row: Row, email: string): Input {
    Input(row.operationId, if row.fingerprint.Some? then row.fingerprint.value else "", row.outcome, Unknown,
          email, None, false, None, None, false, false, false, false, true)
  }

  lemma AuditOnlyAccepted(digest: string -> string, db: Db, ids: seq<OpId>, now: int, row: Row, email: string)
    requires forall id <- ids :: id in db.operations
    requires row in Review(digest, db, ids, now).held && OperatorRefusal(db.users, email).None?
    ensures Assess(digest, db, AuditOnly(row, email), now).Ok?
  {
    HeldMeans(digest, db, ids, now, row);
    assert InputRefusal(AuditOnly(row, email)).None?;
  }

  lemma AcceptedRowIsHeld(digest: string -> string, db: Db, now: int, i: Input, later: int)
    requires Assess(digest, db, i, later).Ok?
    ensures Held(db.operations[i.operationId].outcome) && IsHeld(BuildRow(digest, db, i.operationId, now))
  {
  }

  lemma HeldRowIsListed(digest: string -> string, db: Db, ids: seq<OpId>, now: int, id: OpId)
    requires forall x <- ids :: x in db.operations
    requires id in ids && Held(db.operations[id].outcome) && IsHeld(BuildRow(digest, db, id, now))
    ensures BuildRow(digest, db, id, now) in Review(digest, db, ids, now).held
  {
    FetchedAreListed(db, ids, true);
    FetchedAreListed(db, ids, false);
    var fetched := Fetched(db, ids, true) + Fetched(db, ids, false);
    assert id in Fetched(db, ids, true) && id in fetched;
    var n :| 0 <= n < |fetched| && fetched[n] == id;
    assert Rows(digest, db, fetched, now)[n] == BuildRow(digest, db, id, now);
  }

  lemma AcceptedIsHeld(digest: string -> string, db: Db, ids: seq<OpId>, now: int, i: Input, later: int)
    requires forall id <- ids :: id in db.operations
    requires i.operationId in ids && Assess(digest, db, i, later).Ok?
    ensures BuildRow(digest, db, i.operationId, now) in Review(digest, db, ids, now).held
  {
    AcceptedRowIsHeld(digest, db, now, i, later);
    HeldRowIsListed(digest, db, ids, now, i.operationId);
  }

  /**
   The review's three lists are exact: given any authorised operator, an operation can be
   decided on, by some command, if and only if the review lists it as held.
   */
  lemma HeldExactly(digest: string -> string, db: Db, ids: seq<OpId>, now: int, id: OpId, email: string)
    requires forall x <- ids :: x in db.operations
    requires id in ids && OperatorRefusal(db.users, email).None?
    ensures BuildRow(digest, db, id, now) in Review(digest, db, ids, now).held <==>
            exists i: Input, later: int :: i.operationId == id && Assess(digest, db, i, later).Ok?
  {
    var row := BuildRow(digest, db, id, now);
    if row in Review(digest, db, ids, now).held {
      AuditOnlyAccepted(digest, db, ids, now, row, email);
      assert AuditOnly(row, email).operationId == id;
    }
    if i: Input, later: int :| i.operationId == id && Assess(digest, db, i, later).Ok? {
      AcceptedIsHeld(digest, db, ids, now, i, later);
    }
  }

  // ---------------------------------------------------------------------------
  // Counting
  // ---------------------------------------------------------------------------

  predicate WithFingerprint(r: Row) { r.fingerprint.Some? }

  function OperationIds(claims: seq<Claim>): seq<OpId> {
    seq(|claims|, n requires 0 <= n < |claims| => claims[n].operationId)
  }

  ghost predicate NoDuplicates<T>(s: seq<T>) {
    forall i, j | 0 <= i < j < |s| :: s[i] != s[j]
  }

  ghost function Elements<T>(s: seq<T>): set<T> {
    set x <- s
  }

  lemma {:induction false} CountOfDistinct<T>(s: seq<T>)
    requires NoDuplicates(s)
    ensures |Elements(s)| == |s|
  {
    if s != [] {
      CountOfDistinct(s[1..]);
      assert s[0] !in Elements(s[1..]);
      assert Elements(s) == {s[0]} + Elements(s[1..]);
    }
  }

  lemma {:induction false} FetchedDistinct(db: Db, ids: seq<OpId>, held: bool)
    requires NoDuplicates(ids) && forall id <- ids :: id in db.operations
    ensures NoDuplicates(Fetched(db, ids, held))
  {
    if ids != [] {
      FetchedDistinct(db, ids[1..], held);
      FetchedAreListed(db, ids[1..], held);
      assert ids[0] !in ids[1..];
    }
  }

  /** The ids of those operations in `ids` that hold a claim. */
  function Claimed(db: Db, ids: seq<OpId>): seq<OpId> {
    if ids == [] then []
    else (if ClaimOf(db.claims, ids[0]).Some? then [ids[0]] else []) + Claimed(db, ids[1..])
  }

  lemma {:induction false} ClaimedFacts(db: Db, ids: seq<OpId>)
    requires NoDuplicates(ids)
    ensures NoDuplicates(Claimed(db, ids))
    ensures forall id :: id in Claimed(db, ids) <==> id in ids && ClaimOf(db.claims, id).Some?
  {
    if ids != [] {
      ClaimedFacts(db, ids[1..]);
      assert ids[0] !in ids[1..] && ids == [ids[0]] + ids[1..];
    }
  }

  lemma {:induction false} FingerprintsAreClaims(digest: string -> string, db: Db, ids: seq<OpId>, now: int)
    requires forall id <- ids :: id in db.operations
    ensures |Select(Rows(digest, db, ids, now), WithFingerprint)| == |Claimed(db, ids)|
  {
    if ids != [] {
      FingerprintsAreClaims(digest, db, ids[1..], now);
      assert Rows(digest, db, ids, now)[1..] == Rows(digest, db, ids[1..], now);
    }
  }

  lemma OwnersAreClaimed(db: Db, fetched: seq<OpId>)
    requires KeysHold(db) && NoDuplicates(fetched)
    requires forall id <- db.operations.Keys :: ClaimOf(db.claims, id).Some? ==> id in fetched
    ensures Elements(OperationIds(db.claims)) == Elements(Claimed(db, fetched))
  {
    var owners := OperationIds(db.claims);
    ClaimedFacts(db, fetched);
    forall id ensures id in Elements(owners) <==> id in Elements(Claimed(db, fetched)) {
      if id in owners {
        var n :| 0 <= n < |owners| && owners[n] == id;
        assert db.claims[n] in db.claims && db.claims[n].operationId == id;
      }
      if ClaimOf(db.claims, id).Some? {
        var n :| 0 <= n < |db.claims| && db.claims[n] == ClaimOf(db.claims, id).value;
        assert owners[n] == id;
      }
    }
  }

  lemma FetchedHoldAllClaims(db: Db, ids: seq<OpId>)
    requires NoDuplicates(ids) && Elements(ids) == db.operations.Keys
    requires forall id <- ids :: id in db.operations
    ensures var fetched := Fetched(db, ids, true) + Fetched(db, ids, false);
            && NoDuplicates(fetched) && (forall id <- fetched :: id in db.operations)
            && forall id <- db.operations.Keys :: ClaimOf(db.claims, id).Some? ==> id in fetched
  {
    FetchedAreListed(db, ids, true);
    FetchedAreListed(db, ids, false);
    FetchedDistinct(db, ids, true);
    FetchedDistinct(db, ids, false);
    assert forall id <- db.operations.Keys :: id in Elements(ids);
    var a, b := Fetched(db, ids, true), Fetched(db, ids, false);
    forall i, j | 0 <= i < |a| && 0 <= j < |b| ensures a[i] != b[j] {
      assert a[i] in a && b[j] in b;
    }
  }

  /** A row with a fingerprint is held or an anomaly, never released; every held row has one. */
  lemma {:induction false} FingerprintsAreHeldOrAnomalies(rows: seq<Row>)
    ensures |Select(rows, WithFingerprint)| ==
            |Select(rows, IsHeld)| + |Select(Select(rows, IsAnomaly), WithFingerprint)|
  {
    if rows != [] {
      var rest := rows[1..];
      FingerprintsAreHeldOrAnomalies(rest);
      if IsAnomaly(rows[0]) {
        assert Select(rows, IsAnomaly) == [rows[0]] + Select(rest, IsAnomaly);
        assert Select(rows, IsAnomaly)[1..] == Select(rest, IsAnomaly);
      } else {
        assert Select(rows, IsAnomaly) == Select(rest, IsAnomaly);
      }
    }
  }

  /**
   In an unfiltered review, the held rows and the anomalies that show a claim fingerprint
   number together exactly the claims in the table; no released row shows one.
   */
  lemma FingerprintsCountActiveClaims(digest: string -> string, db: Db, ids: seq<OpId>, now: int)
    requires KeysHold(db) && NoDuplicates(ids) && Elements(ids) == db.operations.Keys
    requires forall id <- ids :: id in db.operations
    ensures var s := Review(digest, db, ids, now);
            && |s.held| + |Select(s.anomalies, WithFingerprint)| == s.activeClaims
            && forall r <- s.released :: !WithFingerprint(r)
    ensures var fetched := Fetched(db, ids, true) + Fetched(db, ids, false);
            && (forall id <- fetched :: id in db.operations)
            && |Select(Rows(digest, db, fetched, now), WithFingerprint)| == Review(digest, db, ids, now).activeClaims
  {
    var fetched := Fetched(db, ids, true) + Fetched(db, ids, false);
    FetchedHoldAllClaims(db, ids);
    FingerprintsAreHeldOrAnomalies(Rows(digest, db, fetched, now));
    FingerprintsAreClaims(digest, db, fetched, now);
    ClaimedFacts(db, fetched);
    OwnersAreClaimed(db, fetched);
    CountOfDistinct(OperationIds(db.claims));
    CountOfDistinct(Claimed(db, fetched));
  }

  // ---------------------------------------------------------------------------
  // When a release is possible
  // ---------------------------------------------------------------------------

  /** Some evidence window both covers the operation and lies in the past, or it is a free demo. */
  predicate ReleasePath(op: Operation, now: int) {
    && op.dispatchedAt.Some?
    && (op.outcome.Dispatched? ==> MinutesBetween(now, op.dispatchedAt.value) >= DISPATCHED_MIN_AGE_MINUTES)
    && (CoverEnd(op.dispatchedAt.value, op.completedAt) <= now + 60_000
        || (op.mode.Demo? && op.estimatedCredits == 0))
  }

  /** A releasing command for the row, with the tightest possible window. */
  function ReleaseOf(row: Row, op: Operation, email: string, demo: bool): Input
    requires op.dispatchedAt.Some?
  {
    Input(row.operationId, if row.fingerprint.Some? then row.fingerprint.value else "", row.outcome, NotCharged, email,
          Some(if demo then DemoSample else DashboardLedger), true,
          Some(op.dispatchedAt.value), Some(CoverEnd(op.dispatchedAt.value, op.completedAt)),
          false, true, demo, false, true)
  }

  lemma ReleaseRefusalExactly(op: Operation, now: int, row: Row, email: string)
    requires Held(op.outcome)
    ensures ReleasePath(op, now) ==>
              var i := ReleaseOf(row, op, email, CoverEnd(op.dispatchedAt.value, op.completedAt) > now + 60_000);
              InputRefusal(i).None? && ReleaseRefusal(op, false, i, now).None?
    ensures forall i: Input ::
              i.decision.NotCharged? && ReleaseRefusal(op, false, i, now).None? ==> ReleasePath(op, now)
  {
  }

  /**
   A held row can be released at a time, by some command, exactly when no release of the
   operation is on record and ReleasePath holds at that time.
   */
  lemma ReleasePossibleExactly(
    digest: string -> string, db: Db, ids: seq<OpId>, now: int, row: Row, email: string, later: int)
    requires forall id <- ids :: id in db.operations
    requires row in Review(digest, db, ids, now).held && OperatorRefusal(db.users, email).None?
    requires row.operationId in db.operations
    ensures !WasReleased(db.audit, row.operationId) && ReleasePath(db.operations[row.operationId], later) <==>
            exists i: Input ::
              i.operationId == row.operationId && i.decision.NotCharged? && Assess(digest, db, i, later).Ok?
  {
    HeldMeans(digest, db, ids, now, row);
    var op := db.operations[row.operationId];
    ReleaseRefusalExactly(op, later, row, email);
    if !WasReleased(db.audit, row.operationId) && ReleasePath(op, later) {
      var i := ReleaseOf(row, op, email, CoverEnd(op.dispatchedAt.value, op.completedAt) > later + 60_000);
      assert i.operationId == row.operationId && Assess(digest, db, i, later).Ok?;
    }
    forall i: Input | i.operationId == row.operationId && i.decision.NotCharged? && Assess(digest, db, i, later).Ok?
      ensures !WasReleased(db.audit, row.operationId) && ReleasePath(op, later)
    {
      AcceptedReleaseMeans(digest, db, i, later);
    }
  }

  lemma AcceptedReleaseMeans(digest: string -> string, db: Db, i: Input, now: int)
    requires i.decision.NotCharged? && Assess(digest, db, i, now).Ok?
    ensures !WasReleased(db.audit, i.operationId)
    ensures ReleaseRefusal(db.operations[i.operationId], false, i, now).None?
  {
  }

  /** Some command releases the operation now or later. */
  ghost predicate ReleasableLater(digest: string -> string, db: Db, id: OpId, now: int) {
    exists i: Input, later: int ::
      later >= now && i.operationId == id && i.decision.NotCharged? && Assess(digest, db, i, later).Ok?
  }

  /**
   Every row the review lists as held, DISPATCHED or UNCERTAIN, can be released now or later
   exactly when its operation has a dispatch time and no release on record.
   */
  lemma HeldReleasableExactly(digest: string -> string, db: Db, ids: seq<OpId>, now: int, row: Row, email: string)
    requires forall id <- ids :: id in db.operations
    requires row in Review(digest, db, ids, now).held && OperatorRefusal(db.users, email).None?
    requires row.operationId in db.operations
    ensures ReleasableLater(digest, db, row.operationId, now) <==>
            db.operations[row.operationId].dispatchedAt.Some? && !WasReleased(db.audit, row.operationId)
  {
    var op := db.operations[row.operationId];
    if op.dispatchedAt.Some? && !WasReleased(db.audit, row.operationId) {
      var later := TimeToRelease(op, now);
      ReleasePossibleExactly(digest, db, ids, now, row, email, later);
    }
    forall i: Input, later: int
      | i.operationId == row.operationId && i.decision.NotCharged? && Assess(digest, db, i, later).Ok?
      ensures op.dispatchedAt.Some? && !WasReleased(db.audit, row.operationId)
    {
      ReleasePossibleExactly(digest, db, ids, now, row, email, later);
    }
  }

  lemma TimeToRelease(op: Operation, now: int) returns (later: int)
    requires op.dispatchedAt.Some?
    ensures later >= now && ReleasePath(op, later)
  {
    var dispatched := op.dispatchedAt.value;
    later := Max(Max(now, dispatched + 900_000), CoverEnd(dispatched, op.completedAt));
  }

  /**
   So the word "eligible" is wrong about an UNCERTAIN operation with a completion time and no dispatch
   time: it is listed as eligible, and every release of it is refused. No verification
   leaves such a row; it takes an edit of the tables.
   */
  lemma EligibleButNeverReleasable(digest: string -> string, now: int, i: Input, later: int) returns (db: Db, row: Row)
    requires i.decision.NotCharged? && i.operationId == "op"
    ensures KeysHold(db) && db.operations.Keys == {"op"}
    ensures row in Review(digest, db, ["op"], now).held && row.readiness.EligibleForEvidence?
    ensures Assess(digest, db, i, later).Err?
  {
    var op := Operation(Live, "29ABCDE1234F1Z5", "BASIC", Uncertain, None, Some(now), false, 1);
    var claim := Claim(ClaimKeyFor(op), "op");
    db := Db(map["op" := op], [claim], [], []);
    assert ClaimOf(db.claims, "op") == Some(claim);
    row := BuildRow(digest, db, "op", now);
    HeldRowIsListed(digest, db, ["op"], now, "op");
  }

  lemma TooYoungIsRefused(digest: string -> string, db: Db, now: int, i: Input)
    requires i.operationId in db.operations && i.decision.NotCharged?
    requires var op := db.operations[i.operationId];
             op.outcome.Dispatched? && op.dispatchedAt.Some?
             && MinutesBetween(now, op.dispatchedAt.value) < DISPATCHED_MIN_AGE_MINUTES
    ensures Assess(digest, db, i, now).Err?
  {
  }

  /** For every row with a dispatch time the readiness is sound about age. */
  lemma StillYoungIsRefused(digest: string -> string, db: Db, ids: seq<OpId>, now: int, row: Row, i: Input)
    requires forall id <- ids :: id in db.operations
    requires row in Review(digest, db, ids, now).held && row.readiness.StillYoung?
    requires i.operationId == row.operationId && i.decision.NotCharged?
    ensures Assess(digest, db, i, now).Err?
  {
    HeldMeans(digest, db, ids, now, row);
    RowOrigin(digest, db, ids, now, row);
    TooYoungIsRefused(digest, db, now, i);
  }
}
