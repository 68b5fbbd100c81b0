/**
 What the reconciliation command accepts, why it refuses and what it writes, in terms of its
 arguments and the tables alone (apps/api/src/cli/gst-verification-reconciliation.ts:584-895).
 */
module ClaimRules {
  import opened Prelude
  import opened GstClaims

  // ---------------------------------------------------------------------------
  // The operator
  // ---------------------------------------------------------------------------

  /** Exactly one user has the address; that user is active and an accountant or an administrator. */
  predicate Authorised(users: seq<User>, email: string) {
    exists n | 0 <= n < |users| ::
      && users[n].email == email && users[n].active
      && ("ACCOUNTANT" in users[n].roles || "ADMIN" in users[n].roles)
      && forall m | 0 <= m < |users| && m != n :: users[m].email != email
  }

  lemma {:induction false} NoMatch(users: seq<User>, email: string)
    ensures MatchingUsers(users, email) == [] <==> forall m | 0 <= m < |users| :: users[m].email != email
  {
    if users != [] {
      NoMatch(users[1..], email);
      assert forall m | 1 <= m < |users| :: users[m] == users[1..][m - 1];
    }
  }

  lemma {:induction false} OneMatch(users: seq<User>, email: string, n: nat)
    requires n < |users| && users[n].email == email
    requires forall m | 0 <= m < |users| && m != n :: users[m].email != email
    ensures MatchingUsers(users, email) == [users[n]]
  {
    if n == 0 {
      NoMatch(users[1..], email);
    } else {
      OneMatch(users[1..], email, n - 1);
    }
  }

  lemma {:induction false} TheMatch(users: seq<User>, email: string) returns (n: nat)
    requires |MatchingUsers(users, email)| == 1
    ensures n < |users| && users[n].email == email && MatchingUsers(users, email) == [users[n]]
    ensures forall m | 0 <= m < |users| && m != n :: users[m].email != email
  {
    if users[0].email == email {
      n := 0;
      NoMatch(users[1..], email);
      assert forall m | 1 <= m < |users| :: users[m] == users[1..][m - 1];
    } else {
      n := TheMatch(users[1..], email);
      n := n + 1;
      assert forall m | 1 <= m < |users| :: users[m] == users[1..][m - 1];
    }
  }

  lemma OperatorExactly(users: seq<User>, email: string)
    ensures OperatorRefusal(users, email).None? <==> Authorised(users, email)
  {
    if OperatorRefusal(users, email).None? {
      var n := TheMatch(users, email);
    }
    if n :| 0 <= n < |users|
            && users[n].email == email && users[n].active
            && ("ACCOUNTANT" in users[n].roles || "ADMIN" in users[n].roles)
            && forall m | 0 <= m < |users| && m != n :: users[m].email != email {
      OneMatch(users, email, n);
    }
  }

  // ---------------------------------------------------------------------------
  // When a command is accepted
  // ---------------------------------------------------------------------------

  /** The arguments are consistent by themselves. */
  predicate InputInOrder(i: Input) {
    && i.textAccepted
    && (i.hasChargedCredits ==> i.decision == ChargedNoResult)
    && (i.hasAssessment ==> i.decision == NotCharged)
    && (i.confirmDemoSample ==> i.evidenceType == Some(DemoSample))
    && (i.decision in {NotCharged, ChargedNoResult} ==> i.evidenceType.Some? && i.hasEvidenceRef)
    && (i.decision == ChargedNoResult ==> i.evidenceType != Some(DemoSample) && i.hasChargedCredits)
    && (i.decision in {Unknown, InProgress} ==> i.evidenceType != Some(DemoSample))
    && (i.decision == NotCharged ==>
          if i.evidenceType == Some(DemoSample) then i.confirmDemoSample
          else i.windowStart.Some? && i.windowEnd.Some? && i.windowStart.value < i.windowEnd.value)
  }

  /** The operation is held as expected, without contradiction, by the claim that was reviewed. */
  predicate HeldAsReviewed(digest: string -> string, db: Db, i: Input) {
    && i.operationId in db.operations
    && var op := db.operations[i.operationId];
       && op.outcome in {Dispatched, Uncertain} && op.outcome == i.expectOutcome && !op.hasEvidence
       && (op.outcome == Uncertain ==> op.completedAt.Some?)
       && (op.outcome == Dispatched ==> op.dispatchedAt.Some?)
       && exists c <- db.claims ::
            && c.operationId == i.operationId && digest(c.key) == i.fingerprint
            && c.key == (if op.mode == Demo then "DEMO:" else "LIVE:") + op.gstin + ":" + op.level
  }

  predicate ReleasedEarlier(db: Db, id: OpId) {
    exists n | 0 <= n < |db.audit| ::
      db.audit[n].Entry? && db.audit[n].operationId == id && db.audit[n].disposition == Released
  }

  /** What a decision to release needs besides. */
  predicate ReleaseInOrder(db: Db, op: Operation, i: Input, now: int) {
    && !ReleasedEarlier(db, i.operationId)
    && op.dispatchedAt.Some?
    && (op.outcome == Dispatched ==> now - op.dispatchedAt.value >= 900_000 && i.hasAssessment)
    && if i.evidenceType == Some(DemoSample) then op.mode == Demo && op.estimatedCredits == 0
       else
         && i.windowStart.Some? && i.windowEnd.Some?
         && i.windowStart.value <= op.dispatchedAt.value
         && op.dispatchedAt.value + 60_000 <= i.windowEnd.value <= now + 60_000
         && (op.completedAt.Some? ==> op.completedAt.value <= i.windowEnd.value)
  }

  lemma InputExactly(i: Input)
    ensures InputRefusal(i).None? <==> InputInOrder(i)
  {
  }

  lemma ReleaseExactly(db: Db, op: Operation, i: Input, now: int)
    ensures ReleaseRefusal(op, WasReleased(db.audit, i.operationId), i, now).None? <==> ReleaseInOrder(db, op, i, now)
  {
    WasReleasedMeans(db, i.operationId);
  }

  lemma WasReleasedMeans(db: Db, id: OpId)
    ensures WasReleased(db.audit, id) <==> ReleasedEarlier(db, id)
  {
    if row :| row in db.audit && row.Entry? && row.operationId == id && row.disposition.Released? {
      var n :| 0 <= n < |db.audit| && db.audit[n] == row;
    }
    if n :| 0 <= n < |db.audit| && db.audit[n].Entry? && db.audit[n].operationId == id
            && db.audit[n].disposition == Released {
      assert db.audit[n] in db.audit;
    }
  }

  lemma NoAnomalyExactly(op: Operation, claim: Claim, releasedBefore: bool)
    ensures Held(op.outcome) && claim.key == ClaimKeyFor(op) && AnomalyFlags(op, Some(claim), releasedBefore) == [] <==>
              && op.outcome in {Dispatched, Uncertain} && !op.hasEvidence
              && claim.key == (if op.mode == Demo then "DEMO:" else "LIVE:") + op.gstin + ":" + op.level
              && (op.outcome == Uncertain ==> op.completedAt.Some?)
              && (op.outcome == Dispatched ==> op.dispatchedAt.Some?)
  {
    assert "DEMO" + ":" == "DEMO:" && "LIVE" + ":" == "LIVE:";
    assert ClaimKeyFor(op) == (if op.mode == Demo then "DEMO:" else "LIVE:") + op.gstin + ":" + op.level;
    var flags := AnomalyFlags(op, Some(claim), releasedBefore);
    if Held(op.outcome) && claim.key == ClaimKeyFor(op) {
      if flags == [] {
        assert !Flagged(EvidencePresentOnHeld, op, Some(claim), releasedBefore);
        assert !Flagged(UncertainWithoutCompletion, op, Some(claim), releasedBefore);
        assert !Flagged(DispatchedWithoutDispatch, op, Some(claim), releasedBefore);
      }
    }
  }

  lemma ClaimExactly(digest: string -> string, db: Db, i: Input, now: int)
    requires KeysHold(db) && i.operationId in db.operations
    ensures var op := db.operations[i.operationId];
            var claim, released := ClaimOf(db.claims, i.operationId), WasReleased(db.audit, i.operationId);
            ClaimRefusal(digest, op, claim, released, i, now).None? <==>
              HeldAsReviewed(digest, db, i) && (i.decision == NotCharged ==> ReleaseInOrder(db, op, i, now))
  {
    var op, claim := db.operations[i.operationId], ClaimOf(db.claims, i.operationId);
    ReleaseExactly(db, op, i, now);
    if claim.Some? {
      NoAnomalyExactly(op, claim.value, WasReleased(db.audit, i.operationId));
      assert forall c <- db.claims :: c.operationId == i.operationId ==> c == claim.value;
    }
  }

  /**
   A command succeeds exactly when its arguments are consistent, the operator is an active
   accountant or administrator, the operation is held as it was reviewed and, for a release,
   the provider's record covers it; nothing else is asked.
   */
  lemma AcceptedExactly(digest: string -> string, db: Db, i: Input, now: int)
    requires KeysHold(db)
    ensures Reconcile(digest, db, i, now).1.Ok? <==>
              && InputInOrder(i) && Authorised(db.users, i.operatorEmail) && HeldAsReviewed(digest, db, i)
              && (i.decision == NotCharged ==> ReleaseInOrder(db, db.operations[i.operationId], i, now))
  {
    InputExactly(i);
    OperatorExactly(db.users, i.operatorEmail);
    if i.operationId in db.operations {
      ClaimExactly(digest, db, i, now);
    }
    OnlyGuardsRefuse(digest, db, i, now);
  }

  /** So only an authorised operator gets anything done, and being one is never what a refusal is about. */
  lemma OperatorDecides(digest: string -> string, db: Db, i: Input, now: int)
    requires KeysHold(db)
    ensures Reconcile(digest, db, i, now).1.Ok? ==> Authorised(db.users, i.operatorEmail)
    ensures Reconcile(digest, db, i, now).1.Err? && Authorised(db.users, i.operatorEmail) ==>
              Reconcile(digest, db, i, now).1.error
              !in {AmbiguousOperator, UnknownOperator, InactiveOperator, UnauthorizedOperator}
  {
    AcceptedExactly(digest, db, i, now);
    OperatorExactly(db.users, i.operatorEmail);
    OnlyGuardsRefuse(digest, db, i, now);
    NotAnOperatorRefusal(digest, db, i, now);
  }

  lemma NotAnOperatorRefusal(digest: string -> string, db: Db, i: Input, now: int)
    ensures OperatorRefusal(db.users, i.operatorEmail).None? && Assess(digest, db, i, now).Err? ==>
              Assess(digest, db, i, now).error
              !in {AmbiguousOperator, UnknownOperator, InactiveOperator, UnauthorizedOperator}
  {
  }

  // ---------------------------------------------------------------------------
  // What a command writes
  // ---------------------------------------------------------------------------

  /**
   An accepted command reports and records what was decided, by whom, on what evidence and in
   which state of the operation; a release takes the operation's claim away and no other, and
   nothing else in the tables changes. A dry run and a refusal change nothing.
   */
  lemma WrittenExactly(digest: string -> string, db: Db, i: Input, now: int)
    requires KeysHold(db)
    ensures var (after, r) := Reconcile(digest, db, i, now);
            && after.operations == db.operations && after.users == db.users
            && (r.Err? || i.dryRun ==> after == db)
            && (r.Ok? ==>
                  && i.operationId in db.operations
                  && var op := db.operations[i.operationId];
                     var disposition := if i.decision == NotCharged then Released else Retained;
                     && r.value == Receipt(i.operationId, op.outcome, disposition, i.dryRun)
                     && (!i.dryRun ==>
                           after.audit == db.audit + [Entry(i.operationId, disposition, Facts(
                             i.decision, op.outcome, op.mode, i.operatorEmail, i.evidenceType,
                             i.windowStart, i.windowEnd,
                             i.hasAssessment, now, op.dispatchedAt, op.completedAt))]))
            && (r.Ok? && !i.dryRun && i.decision == NotCharged ==>
                  && |after.claims| == |db.claims| - 1
                  && forall c :: c in after.claims <==> c in db.claims && c.operationId != i.operationId)
            && (i.decision != NotCharged ==> after.claims == db.claims)
  {
    if Releases(digest, db, i, now) {
      var at := ReleaseEffect(digest, db, i, now);
      CutMeans(db.claims, at);
      OnlyGuardsRefuse(digest, db, i, now);
    } else {
      OtherEffect(digest, db, i, now);
      OnlyGuardsRefuse(digest, db, i, now);
    }
  }

  lemma CutMeans(claims: seq<Claim>, at: nat)
    requires Distinct(claims) && at < |claims|
    ensures |Cut(claims, at)| == |claims| - 1
    ensures forall c :: c in Cut(claims, at) <==> c in claims && c.operationId != claims[at].operationId
  {
    var cut := Cut(claims, at);
    forall c ensures c in cut <==> c in claims && c.operationId != claims[at].operationId {
      if c in cut {
        var n :| 0 <= n < |cut| && cut[n] == c;
        assert c == claims[if n < at then n else n + 1];
      }
      if c in claims && c.operationId != claims[at].operationId {
        var n :| 0 <= n < |claims| && claims[n] == c;
        assert cut[if n < at then n else n - 1] == c;
      }
    }
  }

  // ---------------------------------------------------------------------------
  // Why a command is refused
  // ---------------------------------------------------------------------------

  /** The order in which the source asks. */
  function Rank(x: Refusal): nat {
    match x
    case TextRejected => 0
    case CreditsNotApplicable => 1
    case AssessmentNotApplicable => 2
    case DemoNotApplicable => 3
    case EvidenceRequired => 4
    case DemoCannotCharge => 5
    case CreditsRequired => 6
    case DemoNotConfirmed => 7
    case WindowRequired => 8
    case WindowOrder => 9
    case DemoNotForAuditOnly => 10
    case NoSuchOperation => 11
    case AmbiguousOperator => 12
    case UnknownOperator => 13
    case InactiveOperator => 14
    case UnauthorizedOperator => 15
    case NotHeld => 16
    case UnexpectedOutcome => 17
    case NoClaim => 18
    case KeyMismatch => 19
    case FingerprintMismatch => 20
    case Anomalous => 21
    case AlreadyReleased => 22
    case NoDispatchTime => 23
    case TooYoung => 24
    case AssessmentRequired => 25
    case DemoOnLive => 26
    case DemoWithCredits => 27
    case WindowNotCovering => 28
    case WindowInFuture => 29
    case ClaimChanged => 30
  }

  /** The fault that a refusal about the arguments names. */
  predicate InputFault(x: Refusal, i: Input) {
    var demo := i.evidenceType == Some(DemoSample);
    match x
    case TextRejected => !i.textAccepted
    case CreditsNotApplicable => i.hasChargedCredits && i.decision != ChargedNoResult
    case AssessmentNotApplicable => i.hasAssessment && i.decision != NotCharged
    case DemoNotApplicable => i.confirmDemoSample && !demo
    case EvidenceRequired => i.decision in {NotCharged, ChargedNoResult} && (i.evidenceType.None? || !i.hasEvidenceRef)
    case DemoCannotCharge => i.decision == ChargedNoResult && demo
    case CreditsRequired => i.decision == ChargedNoResult && !i.hasChargedCredits
    case DemoNotConfirmed => i.decision == NotCharged && demo && !i.confirmDemoSample
    case WindowRequired => i.decision == NotCharged && !demo && (i.windowStart.None? || i.windowEnd.None?)
    case WindowOrder =>
      && i.decision == NotCharged && !demo && i.windowStart.Some? && i.windowEnd.Some?
      && i.windowStart.value >= i.windowEnd.value
    case DemoNotForAuditOnly => i.decision in {Unknown, InProgress} && demo
    case _ => false
  }

  /** The fault that a refusal about the operator names. */
  predicate OperatorFault(x: Refusal, users: seq<User>, email: string) {
    match x
    case AmbiguousOperator => exists n, m | 0 <= n < m < |users| :: users[n].email == email && users[m].email == email
    case UnknownOperator => forall n | 0 <= n < |users| :: users[n].email != email
    case InactiveOperator => exists n | 0 <= n < |users| :: users[n].email == email && !users[n].active
    case UnauthorizedOperator =>
      exists n | 0 <= n < |users| ::
        users[n].email == email && "ACCOUNTANT" !in users[n].roles && "ADMIN" !in users[n].roles
    case _ => false
  }

  /** The fault that a refusal about the claim or the release names. */
  predicate ClaimFault(
    x: Refusal, digest: string -> string, op: Operation, claim: Option<Claim>, releasedBefore: bool, i: Input, now: int)
  {
    var demo := i.evidenceType == Some(DemoSample);
    match x
    case NotHeld => op.outcome !in {Dispatched, Uncertain}
    case UnexpectedOutcome => op.outcome != i.expectOutcome
    case NoClaim => claim.None?
    case KeyMismatch =>
      claim.Some? && claim.value.key != (if op.mode == Demo then "DEMO:" else "LIVE:") + op.gstin + ":" + op.level
    case FingerprintMismatch => claim.Some? && digest(claim.value.key) != i.fingerprint
    case Anomalous =>
      || op.hasEvidence || (op.outcome == Uncertain && op.completedAt.None?)
      || (op.outcome == Dispatched && op.dispatchedAt.None?)
    case AlreadyReleased => i.decision == NotCharged && releasedBefore
    case NoDispatchTime => i.decision == NotCharged && op.dispatchedAt.None?
    case TooYoung =>
      && i.decision == NotCharged && op.outcome == Dispatched && op.dispatchedAt.Some?
      && now - op.dispatchedAt.value < 900_000
    case AssessmentRequired => i.decision == NotCharged && op.outcome == Dispatched && !i.hasAssessment
    case DemoOnLive => i.decision == NotCharged && demo && op.mode == Live
    case DemoWithCredits => i.decision == NotCharged && demo && op.estimatedCredits != 0
    case WindowNotCovering =>
      && i.decision == NotCharged && !demo && op.dispatchedAt.Some? && i.windowStart.Some? && i.windowEnd.Some?
      && (|| op.dispatchedAt.value < i.windowStart.value || i.windowEnd.value < op.dispatchedAt.value + 60_000
          || (op.completedAt.Some? && i.windowEnd.value < op.completedAt.value))
    case WindowInFuture => i.decision == NotCharged && !demo && i.windowEnd.Some? && now + 60_000 < i.windowEnd.value
    case _ => false
  }

  /** Everything that is wrong with a command. */
  predicate Fault(x: Refusal, digest: string -> string, db: Db, i: Input, now: int) {
    || InputFault(x, i) || OperatorFault(x, db.users, i.operatorEmail)
    || (x == NoSuchOperation && i.operationId !in db.operations)
    || (&& i.operationId in db.operations
        && ClaimFault(x, digest, db.operations[i.operationId], ClaimOf(db.claims, i.operationId),
                      ReleasedEarlier(db, i.operationId), i, now))
  }

  /** `x` is wrong with the command, and nothing that the source asks before it. */
  ghost predicate FirstFault(x: Refusal, digest: string -> string, db: Db, i: Input, now: int) {
    Fault(x, digest, db, i, now) && forall y | Rank(y) < Rank(x) :: !Fault(y, digest, db, i, now)
  }

  lemma InputFaults(i: Input)
    ensures match InputRefusal(i)
            case None => forall y :: !InputFault(y, i)
            case Some(x) => InputFault(x, i) && forall y | Rank(y) < Rank(x) :: !InputFault(y, i)
  {
  }

  lemma OperatorFaults(users: seq<User>, email: string)
    ensures match OperatorRefusal(users, email)
            case None => forall y :: !OperatorFault(y, users, email)
            case Some(x) =>
              OperatorFault(x, users, email) && forall y | Rank(y) < Rank(x) :: !OperatorFault(y, users, email)
  {
    var found := MatchingUsers(users, email);
    NoMatch(users, email);
    if |found| == 1 {
      var n := TheMatch(users, email);
    } else if |found| > 1 {
      var n, m := TwoMatches(users, email);
    }
  }

  lemma {:induction false} TwoMatches(users: seq<User>, email: string) returns (n: nat, m: nat)
    requires |MatchingUsers(users, email)| > 1
    ensures n < m < |users| && users[n].email == email && users[m].email == email
  {
    if users[0].email == email {
      n := 0;
      NoMatch(users[1..], email);
      m :| 0 <= m < |users[1..]| && users[1..][m].email == email;
      m := m + 1;
    } else {
      n, m := TwoMatches(users[1..], email);
      n, m := n + 1, m + 1;
    }
  }

  lemma ReleaseRefusalRanks(op: Operation, releasedBefore: bool, i: Input, now: int)
    requires InputInOrder(i) && i.decision == NotCharged
    ensures var r := ReleaseRefusal(op, releasedBefore, i, now); r.Some? ==> Rank(r.value) > 21
  {
  }

  lemma AnomalousExactly(op: Operation, claim: Claim, releasedBefore: bool)
    requires Held(op.outcome) && claim.key == ClaimKeyFor(op)
    ensures AnomalyFlags(op, Some(claim), releasedBefore) != [] <==>
              || op.hasEvidence || (op.outcome == Uncertain && op.completedAt.None?)
              || (op.outcome == Dispatched && op.dispatchedAt.None?)
  {
    NoAnomalyExactly(op, claim, releasedBefore);
  }

  lemma KeyTextExactly(op: Operation)
    ensures ClaimKeyFor(op) == (if op.mode == Demo then "DEMO:" else "LIVE:") + op.gstin + ":" + op.level
  {
    assert "DEMO" + ":" == "DEMO:" && "LIVE" + ":" == "LIVE:";
  }

  /** `r` is the first fault among the questions about the claim, or, if there is none, what comes after them. */
  ghost predicate EarlyFirst(
    r: Option<Refusal>, digest: string -> string, op: Operation, claim: Option<Claim>, releasedBefore: bool,
    i: Input, now: int)
  {
    if r.Some? && Rank(r.value) <= 21 then
      && ClaimFault(r.value, digest, op, claim, releasedBefore, i, now)
      && forall y | Rank(y) < Rank(r.value) :: !ClaimFault(y, digest, op, claim, releasedBefore, i, now)
    else
      && (forall y | Rank(y) <= 21 :: !ClaimFault(y, digest, op, claim, releasedBefore, i, now))
      && r == if i.decision == NotCharged then ReleaseRefusal(op, releasedBefore, i, now) else None
  }

  /** The six questions about the claim, asked one after the other. */
  function EarlyChain(
    digest: string -> string, op: Operation, claim: Option<Claim>, releasedBefore: bool, i: Input, now: int)
    : Option<Refusal>
  {
    if ClaimFault(NotHeld, digest, op, claim, releasedBefore, i, now) then Some(NotHeld)
    else if ClaimFault(UnexpectedOutcome, digest, op, claim, releasedBefore, i, now) then Some(UnexpectedOutcome)
    else if ClaimFault(NoClaim, digest, op, claim, releasedBefore, i, now) then Some(NoClaim)
    else if ClaimFault(KeyMismatch, digest, op, claim, releasedBefore, i, now) then Some(KeyMismatch)
    else if ClaimFault(FingerprintMismatch, digest, op, claim, releasedBefore, i, now) then Some(FingerprintMismatch)
    else if ClaimFault(Anomalous, digest, op, claim, releasedBefore, i, now) then Some(Anomalous)
    else if i.decision == NotCharged then ReleaseRefusal(op, releasedBefore, i, now) else None
  }

  lemma RefusalIsChain(
    digest: string -> string, op: Operation, claim: Option<Claim>, releasedBefore: bool, i: Input, now: int)
    ensures ClaimRefusal(digest, op, claim, releasedBefore, i, now)
            == EarlyChain(digest, op, claim, releasedBefore, i, now)
  {
    KeyTextExactly(op);
    if claim.Some? && Held(op.outcome) && claim.value.key == ClaimKeyFor(op) {
      AnomalousExactly(op, claim.value, releasedBefore);
    }
  }

  /** The first of six questions answered with yes, or else what comes after them. */
  function FirstOfSix(asked: Refusal -> bool, after: Option<Refusal>): Option<Refusal> {
    if asked(NotHeld) then Some(NotHeld)
    else if asked(UnexpectedOutcome) then Some(UnexpectedOutcome)
    else if asked(NoClaim) then Some(NoClaim)
    else if asked(KeyMismatch) then Some(KeyMismatch)
    else if asked(FingerprintMismatch) then Some(FingerprintMismatch)
    else if asked(Anomalous) then Some(Anomalous)
    else after
  }

  lemma FirstOfSixIsFirst(asked: Refusal -> bool, after: Option<Refusal>)
    requires (forall y | Rank(y) < 16 :: !asked(y)) && (after.Some? ==> Rank(after.value) > 21)
    ensures var r := FirstOfSix(asked, after);
            if r.Some? && Rank(r.value) <= 21
            then asked(r.value) && forall y | Rank(y) < Rank(r.value) :: !asked(y)
            else (forall y | Rank(y) <= 21 :: !asked(y)) && r == after
  {
  }

  function AfterSix(op: Operation, releasedBefore: bool, i: Input, now: int): Option<Refusal> {
    if i.decision == NotCharged then ReleaseRefusal(op, releasedBefore, i, now) else None
  }

  lemma ChainIsSix(
    digest: string -> string, op: Operation, claim: Option<Claim>, releasedBefore: bool, i: Input, now: int)
    ensures EarlyChain(digest, op, claim, releasedBefore, i, now) ==
              FirstOfSix(y => ClaimFault(y, digest, op, claim, releasedBefore, i, now),
                         AfterSix(op, releasedBefore, i, now))
  {
  }

  lemma ChainIsFirst(
    digest: string -> string, op: Operation, claim: Option<Claim>, releasedBefore: bool, i: Input, now: int)
    requires InputInOrder(i)
    ensures var r := EarlyChain(digest, op, claim, releasedBefore, i, now);
            EarlyFirst(r, digest, op, claim, releasedBefore, i, now)
  {
    if i.decision == NotCharged {
      ReleaseRefusalRanks(op, releasedBefore, i, now);
    }
    var asked := y => ClaimFault(y, digest, op, claim, releasedBefore, i, now);
    FirstOfSixIsFirst(asked, AfterSix(op, releasedBefore, i, now));
    ChainIsSix(digest, op, claim, releasedBefore, i, now);
    assert forall y :: asked(y) == ClaimFault(y, digest, op, claim, releasedBefore, i, now);
  }

  /** The questions about the claim, before any about a release. */
  lemma EarlyFaults(
    digest: string -> string, op: Operation, claim: Option<Claim>, releasedBefore: bool, i: Input, now: int)
    requires InputInOrder(i)
    ensures var r := ClaimRefusal(digest, op, claim, releasedBefore, i, now);
            EarlyFirst(r, digest, op, claim, releasedBefore, i, now)
  {
    RefusalIsChain(digest, op, claim, releasedBefore, i, now);
    ChainIsFirst(digest, op, claim, releasedBefore, i, now);
  }

  lemma NoReleaseFaults(
    digest: string -> string, op: Operation, claim: Option<Claim>, releasedBefore: bool, i: Input, now: int)
    requires i.decision != NotCharged
    ensures forall y | Rank(y) > 21 :: !ClaimFault(y, digest, op, claim, releasedBefore, i, now)
  {
  }

  lemma ClaimFaults(
    digest: string -> string, op: Operation, claim: Option<Claim>, releasedBefore: bool, i: Input, now: int)
    requires InputInOrder(i)
    ensures match ClaimRefusal(digest, op, claim, releasedBefore, i, now)
            case None => forall y :: !ClaimFault(y, digest, op, claim, releasedBefore, i, now)
            case Some(x) =>
              && ClaimFault(x, digest, op, claim, releasedBefore, i, now)
              && forall y | Rank(y) < Rank(x) :: !ClaimFault(y, digest, op, claim, releasedBefore, i, now)
  {
    EarlyFaults(digest, op, claim, releasedBefore, i, now);
    if i.decision == NotCharged {
      ReleaseFaults(op, claim, releasedBefore, i, now, digest);
    } else {
      NoReleaseFaults(digest, op, claim, releasedBefore, i, now);
    }
  }

  /** The same for the questions a release meets, once the others are answered. */
  lemma ReleaseFaults(
    op: Operation, claim: Option<Claim>, releasedBefore: bool, i: Input, now: int, digest: string -> string)
    requires InputInOrder(i) && i.decision == NotCharged
    ensures match ReleaseRefusal(op, releasedBefore, i, now)
            case None => forall y | Rank(y) > 21 :: !ClaimFault(y, digest, op, claim, releasedBefore, i, now)
            case Some(x) =>
              && Rank(x) > 21 && ClaimFault(x, digest, op, claim, releasedBefore, i, now)
              && forall y | 21 < Rank(y) < Rank(x) :: !ClaimFault(y, digest, op, claim, releasedBefore, i, now)
  {
  }

  lemma InputFirst(digest: string -> string, db: Db, i: Input, now: int)
    requires InputRefusal(i).Some?
    ensures FirstFault(InputRefusal(i).value, digest, db, i, now)
  {
    InputFaults(i);
  }

  lemma OperatorFirst(digest: string -> string, db: Db, i: Input, now: int)
    requires InputRefusal(i).None? && i.operationId in db.operations && OperatorRefusal(db.users, i.operatorEmail).Some?
    ensures FirstFault(OperatorRefusal(db.users, i.operatorEmail).value, digest, db, i, now)
  {
    InputFaults(i);
    OperatorFaults(db.users, i.operatorEmail);
  }

  lemma ClaimFirst(digest: string -> string, db: Db, i: Input, now: int)
    requires InputRefusal(i).None? && i.operationId in db.operations && OperatorRefusal(db.users, i.operatorEmail).None?
    ensures match ClaimRefusal(digest, db.operations[i.operationId], ClaimOf(db.claims, i.operationId),
                               ReleasedEarlier(db, i.operationId), i, now)
            case Some(x) => FirstFault(x, digest, db, i, now)
            case None => forall x :: !Fault(x, digest, db, i, now)
  {
    InputFaults(i);
    InputExactly(i);
    OperatorFaults(db.users, i.operatorEmail);
    ClaimFaults(digest, db.operations[i.operationId], ClaimOf(db.claims, i.operationId),
                ReleasedEarlier(db, i.operationId), i, now);
  }

  lemma AssessedForFirstFault(digest: string -> string, db: Db, i: Input, now: int)
    ensures match Assess(digest, db, i, now)
            case Err(x) => FirstFault(x, digest, db, i, now)
            case Ok(_) => forall x :: !Fault(x, digest, db, i, now)
  {
    WasReleasedMeans(db, i.operationId);
    if InputRefusal(i).Some? {
      InputFirst(digest, db, i, now);
    } else if i.operationId !in db.operations {
      InputFaults(i);
    } else if OperatorRefusal(db.users, i.operatorEmail).Some? {
      OperatorFirst(digest, db, i, now);
    } else {
      ClaimFirst(digest, db, i, now);
    }
  }

  /** A command is refused for exactly the first thing that is wrong with it. */
  lemma RefusedForFirstFault(digest: string -> string, db: Db, i: Input, now: int)
    requires KeysHold(db)
    ensures match Reconcile(digest, db, i, now).1
            case Err(x) => FirstFault(x, digest, db, i, now)
            case Ok(_) => forall x :: !Fault(x, digest, db, i, now)
  {
    AssessedForFirstFault(digest, db, i, now);
    OnlyGuardsRefuse(digest, db, i, now);
  }
}
