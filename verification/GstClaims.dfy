/**
 The decision an operator takes on one held GST verification claim
 (apps/api/src/cli/gst-verification-reconciliation.ts). Each command is one database
 transaction, so one step on the tables below. Times are milliseconds.
 */
module GstClaims {
  import opened Prelude

  type OpId = string

  datatype Mode = Demo | Live
  datatype Outcome = Prepared | Dispatched | Uncertain | Succeeded | FailedOutcome | CacheHit

  datatype Operation = Operation(
    mode: Mode, gstin: string, level: string, outcome: Outcome,
    dispatchedAt: Option<int>, completedAt: Option<int>, hasEvidence: bool, estimatedCredits: int)

  datatype Claim = Claim(key: string, operationId: OpId)

  datatype Decision = NotCharged | ChargedNoResult | Unknown | InProgress
  datatype EvidenceType = DashboardLedger | SupportConfirmation | InvoiceStatement | DemoSample

  datatype Input = Input(
    operationId: OpId, fingerprint: string, expectOutcome: Outcome, decision: Decision,
    operatorEmail: string, evidenceType: Option<EvidenceType>, hasEvidenceRef: bool,
    windowStart: Option<int>, windowEnd: Option<int>, hasChargedCredits: bool,
    hasAssessment: bool, confirmDemoSample: bool, dryRun: bool,
    textAccepted: bool)  // the format and secret-content checks on the free text passed

  datatype Disposition = Released | Retained

  /** The part of the audit metadata that justifies the entry. */
  datatype Facts = Facts(
    decision: Decision, previousOutcome: Outcome, mode: Mode, operator: string,
    evidenceType: Option<EvidenceType>, windowStart: Option<int>, windowEnd: Option<int>,
    hasAssessment: bool, reviewedAt: int, dispatchedAt: Option<int>, completedAt: Option<int>)

  /** A row of the audit log: an entry of this tool, or one of something else. */
  datatype AuditRow = Entry(operationId: OpId, disposition: Disposition, facts: Facts) | Unrelated

  datatype User = User(email: string, active: bool, roles: set<string>)

  datatype Db = Db(operations: map<OpId, Operation>, claims: seq<Claim>, audit: seq<AuditRow>, users: seq<User>)

  datatype Refusal =
    | TextRejected | CreditsNotApplicable | AssessmentNotApplicable | DemoNotApplicable
    | EvidenceRequired | DemoCannotCharge | CreditsRequired | DemoNotConfirmed
    | WindowRequired | WindowOrder | DemoNotForAuditOnly
    | NoSuchOperation | AmbiguousOperator | UnknownOperator | InactiveOperator | UnauthorizedOperator
    | NotHeld | UnexpectedOutcome | NoClaim | KeyMismatch | FingerprintMismatch | Anomalous
    | AlreadyReleased | NoDispatchTime | TooYoung | AssessmentRequired
    | DemoOnLive | DemoWithCredits | WindowNotCovering | WindowInFuture
    | ClaimChanged

  datatype Receipt = Receipt(operationId: OpId, previousOutcome: Outcome, disposition: Disposition, dryRun: bool)

  const DISPATCHED_MIN_AGE_MINUTES := 15

  function ModeName(m: Mode): string {
    match m case Demo => "DEMO" case Live => "LIVE"
  }

  function ClaimKeyFor(op: Operation): string {
    ModeName(op.mode) + ":" + op.gstin + ":" + op.level
  }

  predicate Held(o: Outcome) {
    o.Dispatched? || o.Uncertain?
  }

  /** Math.floor of a possibly negative difference. */
  function MinutesBetween(later: int, earlier: int): int {
    (later - earlier) / 60_000
  }

  function Max(a: int, b: int): int {
    if a < b then b else a
  }

  /** `op.claim`: the claim row that refers to the operation. */
  function ClaimOf(claims: seq<Claim>, id: OpId): (c: Option<Claim>)
    ensures c.Some? ==> c.value in claims && c.value.operationId == id
    ensures c.None? ==> forall x <- claims :: x.operationId != id
  {
    if claims == [] then None
    else if claims[0].operationId == id then Some(claims[0])
    else ClaimOf(claims[1..], id)
  }

  predicate WasReleased(audit: seq<AuditRow>, id: OpId) {
    exists row <- audit :: row.Entry? && row.operationId == id && row.disposition.Released?
  }

  datatype Anomaly =
    | ClaimOnNonHeldOutcome | ClaimKeyMismatch | EvidencePresentOnHeld
    | HeldWithoutClaim | UncertainWithoutCompletion | DispatchedWithoutDispatch

  const ANOMALIES: seq<Anomaly> := [
    ClaimOnNonHeldOutcome, ClaimKeyMismatch, EvidencePresentOnHeld,
    HeldWithoutClaim, UncertainWithoutCompletion, DispatchedWithoutDispatch
  ]

  lemma AnomalyListed(f: Anomaly)
    ensures f in ANOMALIES
  {
    var n := match f
      case ClaimOnNonHeldOutcome => 0
      case ClaimKeyMismatch => 1
      case EvidencePresentOnHeld => 2
      case HeldWithoutClaim => 3
      case UncertainWithoutCompletion => 4
      case DispatchedWithoutDispatch => 5;
    assert ANOMALIES[n] == f;
  }

  predicate Flagged(f: Anomaly, op: Operation, claim: Option<Claim>, releasedBefore: bool) {
    match f
    case ClaimOnNonHeldOutcome => claim.Some? && !Held(op.outcome)
    case ClaimKeyMismatch => claim.Some? && claim.value.key != ClaimKeyFor(op)
    case EvidencePresentOnHeld => Held(op.outcome) && op.hasEvidence
    case HeldWithoutClaim => Held(op.outcome) && claim.None? && !releasedBefore
    case UncertainWithoutCompletion => op.outcome.Uncertain? && op.completedAt.None?
    case DispatchedWithoutDispatch => op.outcome.Dispatched? && op.dispatchedAt.None?
  }

  /** The flags among `candidates`, in that order. */
  function FlagsAmong(
    candidates: seq<Anomaly>, op: Operation, claim: Option<Claim>, releasedBefore: bool): (flags: seq<Anomaly>)
    ensures forall f :: f in flags <==> f in candidates && Flagged(f, op, claim, releasedBefore)
  {
    if candidates == [] then []
    else
      assert candidates == [candidates[0]] + candidates[1..];
      (if Flagged(candidates[0], op, claim, releasedBefore) then [candidates[0]] else [])
      + FlagsAmong(candidates[1..], op, claim, releasedBefore)
  }

  /** operationAnomalyFlags: the one definition the review and the command share. */
  function AnomalyFlags(op: Operation, claim: Option<Claim>, releasedBefore: bool): (flags: seq<Anomaly>)
    ensures flags == [] <==> forall f :: !Flagged(f, op, claim, releasedBefore)
  {
    assert forall f: Anomaly :: f in ANOMALIES by {
      forall f: Anomaly ensures f in ANOMALIES { AnomalyListed(f); }
    }
    var flags := FlagsAmong(ANOMALIES, op, claim, releasedBefore);
    assert flags != [] ==> flags[0] in flags;
    flags
  }

  /** assertDecisionInputs: the rules that need no database. */
  function InputRefusal(i: Input): Option<Refusal> {
    var demo := i.evidenceType == Some(DemoSample);
    if !i.textAccepted then Some(TextRejected)
    else if i.hasChargedCredits && !i.decision.ChargedNoResult? then Some(CreditsNotApplicable)
    else if i.hasAssessment && !i.decision.NotCharged? then Some(AssessmentNotApplicable)
    else if i.confirmDemoSample && !demo then Some(DemoNotApplicable)
    else if (i.decision.NotCharged? || i.decision.ChargedNoResult?) && (i.evidenceType.None? || !i.hasEvidenceRef)
      then Some(EvidenceRequired)
    else if i.decision.ChargedNoResult? && demo then Some(DemoCannotCharge)
    else if i.decision.ChargedNoResult? && !i.hasChargedCredits then Some(CreditsRequired)
    else if i.decision.NotCharged? && demo then
      (if !i.confirmDemoSample then Some(DemoNotConfirmed) else None)
    else if i.decision.NotCharged? then
      (if i.windowStart.None? || i.windowEnd.None? then Some(WindowRequired)
       else if i.windowStart.value >= i.windowEnd.value then Some(WindowOrder)
       else None)
    else if (i.decision.Unknown? || i.decision.InProgress?) && demo then Some(DemoNotForAuditOnly)
    else None
  }

  function MatchingUsers(users: seq<User>, email: string): seq<User> {
    if users == [] then []
    else (if users[0].email == email then [users[0]] else []) + MatchingUsers(users[1..], email)
  }

  function OperatorRefusal(users: seq<User>, email: string): Option<Refusal> {
    var operators := MatchingUsers(users, email);
    if |operators| > 1 then Some(AmbiguousOperator)
    else if operators == [] then Some(UnknownOperator)
    else if !operators[0].active then Some(InactiveOperator)
    else if operators[0].roles !! {"ACCOUNTANT", "ADMIN"} then Some(UnauthorizedOperator)
    else None
  }

  /** The end of the interval the reviewed provider record must cover. */
  function CoverEnd(dispatched: int, completed: Option<int>): int {
    Max(if completed.Some? then completed.value else dispatched, dispatched + 60_000)
  }

  /** The checks only a releasing decision meets. */
  function ReleaseRefusal(op: Operation, releasedBefore: bool, i: Input, now: int): Option<Refusal> {
    if releasedBefore then Some(AlreadyReleased)
    else if op.dispatchedAt.None? then Some(NoDispatchTime)
    else
      var dispatched := op.dispatchedAt.value;
      if op.outcome.Dispatched? && MinutesBetween(now, dispatched) < DISPATCHED_MIN_AGE_MINUTES then Some(TooYoung)
      else if op.outcome.Dispatched? && !i.hasAssessment then Some(AssessmentRequired)
      else if i.evidenceType == Some(DemoSample) then
        (if !op.mode.Demo? then Some(DemoOnLive)
         else if op.estimatedCredits != 0 then Some(DemoWithCredits)
         else None)
      else if i.windowStart.None? || i.windowEnd.None? then Some(WindowRequired)
      else if i.windowStart.value > dispatched || i.windowEnd.value < CoverEnd(dispatched, op.completedAt)
        then Some(WindowNotCovering)
      else if i.windowEnd.value > now + 60_000 then Some(WindowInFuture)
      else None
  }

  /** The checks on the operation and its claim, once the operator is accepted. */
  function ClaimRefusal(
    digest: string -> string, op: Operation, claim: Option<Claim>, releasedBefore: bool, i: Input, now: int)
    : Option<Refusal>
  {
    if !Held(op.outcome) then Some(NotHeld)
    else if op.outcome != i.expectOutcome then Some(UnexpectedOutcome)
    else if claim.None? then Some(NoClaim)
    else if claim.value.key != ClaimKeyFor(op) then Some(KeyMismatch)
    else if digest(claim.value.key) != i.fingerprint then Some(FingerprintMismatch)
    else if AnomalyFlags(op, claim, releasedBefore) != [] then Some(Anomalous)
    else if i.decision.NotCharged? then ReleaseRefusal(op, releasedBefore, i, now)
    else None
  }

  /** All refusals of the transaction, in the order the source meets them. */
  function Assess(digest: string -> string, db: Db, i: Input, now: int): (r: Result<Operation, Refusal>)
    ensures r.Ok? ==> i.operationId in db.operations && r.value == db.operations[i.operationId]
  {
    match InputRefusal(i)
    case Some(refusal) => Err(refusal)
    case None =>
      if i.operationId !in db.operations then Err(NoSuchOperation)
      else
        match OperatorRefusal(db.users, i.operatorEmail)
        case Some(refusal) => Err(refusal)
        case None =>
          var op := db.operations[i.operationId];
          var claim, releasedBefore := ClaimOf(db.claims, i.operationId), WasReleased(db.audit, i.operationId);
          match ClaimRefusal(digest, op, claim, releasedBefore, i, now)
          case Some(refusal) => Err(refusal)
          case None => Ok(op)
  }

  /** The rows a `deleteMany` on operation and key leaves behind. */
  function Without(claims: seq<Claim>, gone: Claim): seq<Claim> {
    if claims == [] then []
    else (if claims[0] == gone then [] else [claims[0]]) + Without(claims[1..], gone)
  }

  function AuditEntry(op: Operation, i: Input, now: int): AuditRow {
    Entry(i.operationId, if i.decision.NotCharged? then Released else Retained,
          Facts(i.decision, op.outcome, op.mode, i.operatorEmail, i.evidenceType, i.windowStart, i.windowEnd,
                i.hasAssessment, now, op.dispatchedAt, op.completedAt))
  }

  /** The whole command: the database it leaves, and its receipt or refusal. */
  function Reconcile(digest: string -> string, db: Db, i: Input, now: int): (Db, Result<Receipt, Refusal>) {
    match Assess(digest, db, i, now)
    case Err(refusal) => (db, Err(refusal))
    case Ok(op) =>
      var disposition := if i.decision.NotCharged? then Released else Retained;
      var receipt := Receipt(i.operationId, op.outcome, disposition, i.dryRun);
      if i.dryRun then (db, Ok(receipt))
      else
        var left := Without(db.claims, Claim(ClaimKeyFor(op), i.operationId));
        var audited := db.(audit := db.audit + [AuditEntry(op, i, now)]);
        if disposition.Retained? then (audited, Ok(receipt))
        else if |db.claims| - |left| != 1 then (db, Err(ClaimChanged))
        else (audited.(claims := left), Ok(receipt))
  }

  /** The unique and foreign keys of the claim table. */
  ghost predicate KeysHold(db: Db) {
    Distinct(db.claims) && forall c <- db.claims :: c.operationId in db.operations
  }

  ghost predicate Distinct(claims: seq<Claim>) {
    forall i, j | 0 <= i < j < |claims| ::
      claims[i].key != claims[j].key && claims[i].operationId != claims[j].operationId
  }

  lemma {:induction false} WithoutKeepsOthers(claims: seq<Claim>, gone: Claim)
    ensures forall c :: c in Without(claims, gone) <==> c in claims && c != gone
    ensures gone !in claims ==> Without(claims, gone) == claims
  {
    if claims != [] {
      WithoutKeepsOthers(claims[1..], gone);
      assert claims == [claims[0]] + claims[1..];
    }
  }

  /** The delete meets exactly one row. */
  lemma {:induction false} DeletesOne(claims: seq<Claim>, gone: Claim) returns (at: nat)
    requires forall i, j | 0 <= i < j < |claims| :: claims[i] != claims[j]
    requires gone in claims
    ensures at < |claims| && claims[at] == gone
    ensures Without(claims, gone) == claims[..at] + claims[at + 1..]
    ensures |claims| - |Without(claims, gone)| == 1
  {
    WithoutKeepsOthers(claims[1..], gone);
    if claims[0] == gone {
      at := 0;
      assert gone !in claims[1..];
      assert claims[..0] + claims[1..] == claims[1..];
    } else {
      assert gone in claims[1..];
      at := DeletesOne(claims[1..], gone);
      assert claims[..at + 1] == [claims[0]] + claims[1..][..at];
      assert claims[at + 2..] == claims[1..][at + 1..];
      at := at + 1;
    }
  }

  /** Once the guards have passed, the claim row they saw is in the table. */
  lemma GuardsSeeTheClaim(digest: string -> string, db: Db, i: Input, now: int)
    requires Assess(digest, db, i, now).Ok?
    ensures Claim(ClaimKeyFor(db.operations[i.operationId]), i.operationId) in db.claims
  {
  }

  /** A command fails exactly when a guard refuses it, for that guard's reason. */
  lemma OnlyGuardsRefuse(digest: string -> string, db: Db, i: Input, now: int)
    requires KeysHold(db)
    ensures match Assess(digest, db, i, now)
            case Err(refusal) => Reconcile(digest, db, i, now).1 == Err(refusal)
            case Ok(_) => Reconcile(digest, db, i, now).1.Ok?
  {
    if Assess(digest, db, i, now).Ok? {
      GuardsSeeTheClaim(digest, db, i, now);
      var _ := DeletesOne(db.claims, Claim(ClaimKeyFor(db.operations[i.operationId]), i.operationId));
    }
  }

  lemma DryRunSeesTheSame(digest: string -> string, db: Db, i: Input, dry: Input, now: int)
    requires dry == i.(dryRun := true)
    ensures Assess(digest, db, dry, now) == Assess(digest, db, i, now)
  {
    assert InputRefusal(dry) == InputRefusal(i);
    assert forall op, claim, released ::
        ClaimRefusal(digest, op, claim, released, dry, now) == ClaimRefusal(digest, op, claim, released, i, now);
  }

  /**
   A dry run changes nothing, and predicts the real run exactly: same success, same
   disposition, same refusal. In particular the rollback after a delete that did not
   meet one row is never taken.
   */
  lemma DryRunPredictsRealRun(digest: string -> string, db: Db, i: Input, dry: Input, now: int)
    requires KeysHold(db) && !i.dryRun && dry == i.(dryRun := true)
    ensures Reconcile(digest, db, dry, now).0 == db
    ensures match Reconcile(digest, db, i, now).1
            case Err(refusal) => Reconcile(digest, db, dry, now).1 == Err(refusal)
            case Ok(receipt) => Reconcile(digest, db, dry, now).1 == Ok(receipt.(dryRun := true))
  {
    DryRunSeesTheSame(digest, db, i, dry, now);
    if Assess(digest, db, i, now).Ok? {
      GuardsSeeTheClaim(digest, db, i, now);
      var _ := DeletesOne(db.claims, Claim(ClaimKeyFor(db.operations[i.operationId]), i.operationId));
    }
  }

  /** The table without the claim at position `at`. */
  function Cut(claims: seq<Claim>, at: nat): seq<Claim>
    requires at < |claims|
  {
    claims[..at] + claims[at + 1..]
  }

  predicate Releases(digest: string -> string, db: Db, i: Input, now: int) {
    Assess(digest, db, i, now).Ok? && !i.dryRun && i.decision.NotCharged?
  }

  /** A real NOT_CHARGED command cuts the operation's one claim and appends the row that justifies it. */
  lemma ReleaseEffect(digest: string -> string, db: Db, i: Input, now: int) returns (at: nat)
    requires KeysHold(db) && Releases(digest, db, i, now)
    ensures at < |db.claims| && db.claims[at].operationId == i.operationId
    ensures Reconcile(digest, db, i, now).0
            == db.(claims := Cut(db.claims, at), audit := db.audit + [AuditEntry(db.operations[i.operationId], i, now)])
    ensures AnomalyFlags(db.operations[i.operationId], Some(db.claims[at]), WasReleased(db.audit, i.operationId)) == []
  {
    GuardsSeeTheClaim(digest, db, i, now);
    var claim := Claim(ClaimKeyFor(db.operations[i.operationId]), i.operationId);
    at := DeletesOne(db.claims, claim);
    assert ClaimOf(db.claims, i.operationId) == Some(claim);
  }

  /** Every other command leaves all claims alone, and at most appends one REVIEWED row. */
  lemma OtherEffect(digest: string -> string, db: Db, i: Input, now: int)
    requires !Releases(digest, db, i, now)
    ensures var db' := Reconcile(digest, db, i, now).0;
            && db' == db.(audit := db'.audit)
            && (db'.audit == db.audit
                || (&& Assess(digest, db, i, now).Ok?
                    && db'.audit == db.audit + [AuditEntry(db.operations[i.operationId], i, now)]
                    && !i.decision.NotCharged?))
  {
  }

  /** The tables, as the transaction of reconcileGstVerificationClaim changes them. */
  class ClaimStore {
    const digest: string -> string
    const operations: map<OpId, Operation>
    const users: seq<User>
    var claims: seq<Claim>
    var audit: seq<AuditRow>

    function Tables(): Db
      reads this
    {
      Db(operations, claims, audit, users)
    }

    constructor (digest: string -> string, db: Db)
      ensures Tables() == db && this.digest == digest
    {
      this.digest, operations, users := digest, db.operations, db.users;
      claims, audit := db.claims, db.audit;
    }

    /** deleteMany: returns the number of rows that went. */
    method DeleteClaims(gone: Claim) returns (count: int)
      modifies this`claims
      ensures claims == Without(old(claims), gone)
      ensures count == |old(claims)| - |claims|
    {
      var before := claims;
      var kept: seq<Claim> := [];
      for n := 0 to |before|
        invariant kept + Without(before[n..], gone) == Without(before, gone)
      {
        assert before[n..][0] == before[n] && before[n..][1..] == before[n + 1..];
        if before[n] != gone {
          kept := kept + [before[n]];
        }
      }
      assert before[|before|..] == [];
      claims := kept;
      count := |before| - |kept|;
    }

    method ReconcileClaim(i: Input, now: int) returns (r: Result<Receipt, Refusal>)
      requires KeysHold(Tables())
      modifies this
      ensures (Tables(), r) == Reconcile(digest, old(Tables()), i, now)
      ensures r.Ok? && !i.dryRun && i.decision.NotCharged? ==> |claims| == |old(claims)| - 1
    {
      var assessment := Assess(digest, Tables(), i, now);
      if assessment.Err? {
        return Err(assessment.error);
      }
      var op := assessment.value;
      var disposition := if i.decision.NotCharged? then Released else Retained;
      r := Ok(Receipt(i.operationId, op.outcome, disposition, i.dryRun));
      if i.dryRun {
        return;
      }
      GuardsSeeTheClaim(digest, Tables(), i, now);
      ghost var at := DeletesOne(claims, Claim(ClaimKeyFor(op), i.operationId));
      audit := audit + [AuditEntry(op, i, now)];
      if disposition.Released? {
        var count := DeleteClaims(Claim(ClaimKeyFor(op), i.operationId));
        assert count == 1;
      }
    }
  }
}
