/**
 Whole histories of the claim tables: reconcile commands in any order and number,
 interleaved with the verification lifecycle that creates and ends the claims
 (apps/api/src/modules/gst-compliance/gstin-verification.repository.ts).
 */
module GstRuns {
  import opened Prelude
  import opened GstClaims
  import GstReview
  import opened ClaimRules

  datatype Event =
    | Command(input: Input, now: int)
    | Prepare(id: OpId, operation: Operation)
    | Acquire(id: OpId, key: string, now: int)
    | Complete(id: OpId, now: int)
    | Fail(id: OpId, uncertain: bool, now: int)
    | HitCache(id: OpId, now: int)

  function WithoutOperation(claims: seq<Claim>, id: OpId): seq<Claim> {
    if claims == [] then []
    else (if claims[0].operationId == id then [] else [claims[0]]) + WithoutOperation(claims[1..], id)
  }

  predicate KeyTaken(claims: seq<Claim>, key: string) {
    exists c <- claims :: c.key == key
  }

  /** One transaction; it leaves the tables alone when the source returns early or throws. */
  function Step(digest: string -> string, db: Db, e: Event): Db {
    match e
    case Command(i, now) => Reconcile(digest, db, i, now).0
    case Prepare(id, op) =>
      if id in db.operations then db
      else db.(operations := db.operations[id :=
                 op.(outcome := Prepared, dispatchedAt := None, completedAt := None, hasEvidence := false)])
    case Acquire(id, key, now) =>
      if id !in db.operations || !db.operations[id].outcome.Prepared? then db
      else if KeyTaken(db.claims, key) || ClaimOf(db.claims, id).Some? then db
      else db.(claims := db.claims + [Claim(key, id)],
               operations := db.operations[id := db.operations[id].(outcome := Dispatched, dispatchedAt := Some(now))])
    case Complete(id, now) =>
      if id !in db.operations || db.operations[id].hasEvidence then db
      else db.(claims := WithoutOperation(db.claims, id),
               operations := db.operations[id :=
                 db.operations[id].(outcome := Succeeded, completedAt := Some(now), hasEvidence := true)])
    case Fail(id, uncertain, now) =>
      if id !in db.operations then db
      else db.(claims := if uncertain then db.claims else WithoutOperation(db.claims, id),
               operations := db.operations[id :=
                 db.operations[id].(
                   outcome := if uncertain then Uncertain else FailedOutcome, completedAt := Some(now))])
    case HitCache(id, now) =>
      if id !in db.operations then db
      else db.(claims := WithoutOperation(db.claims, id),
               operations := db.operations[id := db.operations[id].(outcome := CacheHit, completedAt := Some(now))])
  }

  function Run(digest: string -> string, db: Db, events: seq<Event>): Db {
    if events == [] then db
    else Step(digest, Run(digest, db, events[..|events| - 1]), events[|events| - 1])
  }

  /** The time bounds a release was granted under, read off its own audit row. */
  predicate Justified(f: Facts) {
    && f.decision.NotCharged?
    && Held(f.previousOutcome)
    && f.dispatchedAt.Some?
    && (f.previousOutcome.Dispatched? ==> f.reviewedAt - f.dispatchedAt.value >= 900_000 && f.hasAssessment)
    && (if f.evidenceType == Some(DemoSample) then f.mode.Demo?
        else
          && f.evidenceType.Some? && f.windowStart.Some? && f.windowEnd.Some?
          && f.windowStart.value <= f.dispatchedAt.value
          && f.dispatchedAt.value + 60_000 <= f.windowEnd.value <= f.reviewedAt + 60_000
          && (f.completedAt.Some? ==> f.completedAt.value <= f.windowEnd.value)
          && f.dispatchedAt.value <= f.reviewedAt)
  }

  /** A released operation is over: it holds no claim and can never acquire one again. */
  predicate Closed(db: Db, id: OpId) {
    id in db.operations && !db.operations[id].outcome.Prepared? && ClaimOf(db.claims, id).None?
  }

  ghost predicate Invariant(db: Db) {
    && KeysHold(db)
    && forall row <- db.audit :: row.Entry? && row.disposition.Released? ==>
         Closed(db, row.operationId) && Justified(row.facts)
  }

  lemma {:induction false} WithoutOperationFacts(claims: seq<Claim>, id: OpId)
    requires Distinct(claims)
    ensures forall c :: c in WithoutOperation(claims, id) <==> c in claims && c.operationId != id
    ensures Distinct(WithoutOperation(claims, id))
  {
    if claims != [] {
      WithoutOperationFacts(claims[1..], id);
      var rest := WithoutOperation(claims[1..], id);
      assert claims == [claims[0]] + claims[1..];
      forall n | 0 <= n < |rest| ensures rest[n].key != claims[0].key && rest[n].operationId != claims[0].operationId {
        assert rest[n] in claims[1..];
      }
      if claims[0].operationId != id {
        assert WithoutOperation(claims, id) == [claims[0]] + rest;
      }
    }
  }

  /** Only a claim in the table makes `ClaimOf` find one. */
  lemma NoClaimKept(before: seq<Claim>, after: seq<Claim>, id: OpId)
    requires ClaimOf(before, id).None?
    requires forall c <- after :: c in before || c.operationId != id
    ensures ClaimOf(after, id).None?
  {
  }

  lemma ReleaseIsJustified(digest: string -> string, db: Db, i: Input, now: int)
    requires Assess(digest, db, i, now).Ok? && i.decision.NotCharged?
    ensures Justified(AuditEntry(db.operations[i.operationId], i, now).facts)
    ensures !WasReleased(db.audit, i.operationId)
  {
  }

  lemma ReleaseKeeps(db: Db, at: nat, row: AuditRow)
    requires Invariant(db) && at < |db.claims| && row.Entry? && row.operationId == db.claims[at].operationId
    requires row.operationId in db.operations && Held(db.operations[row.operationId].outcome) && Justified(row.facts)
    ensures Invariant(db.(claims := Cut(db.claims, at), audit := db.audit + [row]))
  {
    var claims := Cut(db.claims, at);
    forall c <- claims ensures c in db.claims && c.operationId != row.operationId {
      var n :| 0 <= n < |claims| && claims[n] == c;
      assert c == db.claims[if n < at then n else n + 1];
    }
    forall r <- db.audit | r.Entry? && r.disposition.Released? ensures ClaimOf(claims, r.operationId).None? {
      NoClaimKept(db.claims, claims, r.operationId);
    }
  }

  lemma CommandKeeps(digest: string -> string, db: Db, i: Input, now: int)
    requires Invariant(db)
    ensures Invariant(Reconcile(digest, db, i, now).0)
  {
    if Releases(digest, db, i, now) {
      var at := ReleaseEffect(digest, db, i, now);
      ReleaseIsJustified(digest, db, i, now);
      ReleaseKeeps(db, at, AuditEntry(db.operations[i.operationId], i, now));
    } else {
      OtherEffect(digest, db, i, now);
    }
  }

  lemma LifecycleKeeps(digest: string -> string, db: Db, e: Event)
    requires Invariant(db) && !e.Command?
    ensures Invariant(Step(digest, db, e)) && Step(digest, db, e).audit == db.audit
  {
    var db' := Step(digest, db, e);
    WithoutOperationFacts(db.claims, e.id);
    if e.Acquire? && db' != db {
      forall n | 0 <= n < |db.claims| ensures db.claims[n].key != e.key && db.claims[n].operationId != e.id {
        assert db.claims[n] in db.claims;
      }
    }
    forall row <- db'.audit | row.Entry? && row.disposition.Released?
      ensures Closed(db', row.operationId)
    {
      NoClaimKept(db.claims, db'.claims, row.operationId);
    }
  }

  lemma {:induction false} InvariantThroughout(digest: string -> string, db: Db, events: seq<Event>)
    requires Invariant(db)
    ensures Invariant(Run(digest, db, events))
  {
    if events != [] {
      var before := events[..|events| - 1];
      InvariantThroughout(digest, db, before);
      match events[|events| - 1]
      case Command(i, now) => CommandKeeps(digest, Run(digest, db, before), i, now);
      case e => LifecycleKeeps(digest, Run(digest, db, before), e);
    }
  }

  /** The operations the audit log records as released, in order. */
  function ReleasedIds(audit: seq<AuditRow>): seq<OpId> {
    if audit == [] then []
    else
      var last := audit[|audit| - 1];
      ReleasedIds(audit[..|audit| - 1])
      + if last.Entry? && last.disposition.Released? then [last.operationId] else []
  }

  /** The owners of the claims that are in `before` and not in `after`. */
  function Removed(before: seq<Claim>, after: seq<Claim>): seq<OpId> {
    if before == [] then []
    else (if before[0] in after then [] else [before[0].operationId]) + Removed(before[1..], after)
  }

  /** The owners of the claims this tool really takes out of the table in one step. */
  function ToolDeletes(digest: string -> string, db: Db, e: Event): seq<OpId> {
    if e.Command? then Removed(db.claims, Step(digest, db, e).claims) else []
  }

  /** The same over a run, in order. */
  function DeletedByTool(digest: string -> string, db: Db, events: seq<Event>): seq<OpId> {
    if events == [] then []
    else
      var before := events[..|events| - 1];
      DeletedByTool(digest, db, before) + ToolDeletes(digest, Run(digest, db, before), events[|events| - 1])
  }

  lemma {:induction false} RemovedNothing(claims: seq<Claim>, after: seq<Claim>)
    requires forall c <- claims :: c in after
    ensures Removed(claims, after) == []
  {
    if claims != [] {
      RemovedNothing(claims[1..], after);
    }
  }

  lemma {:induction false} RemovedOne(claims: seq<Claim>, after: seq<Claim>, at: nat)
    requires at < |claims| && claims[at] !in after
    requires forall n | 0 <= n < |claims| && n != at :: claims[n] in after
    ensures Removed(claims, after) == [claims[at].operationId]
  {
    if at == 0 {
      RemovedNothing(claims[1..], after);
    } else {
      RemovedOne(claims[1..], after, at - 1);
    }
  }

  lemma CutRemovesOne(claims: seq<Claim>, at: nat)
    requires Distinct(claims) && at < |claims|
    ensures Removed(claims, Cut(claims, at)) == [claims[at].operationId]
  {
    var after := Cut(claims, at);
    forall n | 0 <= n < |claims| && n != at ensures claims[n] in after {
      assert after[if n < at then n else n - 1] == claims[n];
    }
    RemovedOne(claims, after, at);
  }

  /** One command deletes a claim exactly when it appends a RELEASED row for the same operation. */
  lemma CommandAccounts(digest: string -> string, db: Db, i: Input, now: int)
    requires KeysHold(db)
    ensures var db' := Reconcile(digest, db, i, now).0;
            ReleasedIds(db'.audit) == ReleasedIds(db.audit) + Removed(db.claims, db'.claims)
  {
    var db' := Reconcile(digest, db, i, now).0;
    if Releases(digest, db, i, now) {
      var at := ReleaseEffect(digest, db, i, now);
      CutRemovesOne(db.claims, at);
    } else {
      OtherEffect(digest, db, i, now);
      RemovedNothing(db.claims, db.claims);
    }
    if db'.audit != db.audit {
      assert db'.audit[..|db'.audit| - 1] == db.audit;
    }
  }

  lemma StepAccounts(digest: string -> string, db: Db, e: Event)
    requires Invariant(db)
    ensures ReleasedIds(Step(digest, db, e).audit) == ReleasedIds(db.audit) + ToolDeletes(digest, db, e)
  {
    match e
    case Command(i, now) => CommandAccounts(digest, db, i, now);
    case _ => LifecycleKeeps(digest, db, e);
  }

  lemma Accumulate(digest: string -> string, db: Db, e: Event, base: seq<OpId>, deleted: seq<OpId>)
    requires Invariant(db) && ReleasedIds(db.audit) == base + deleted
    ensures ReleasedIds(Step(digest, db, e).audit) == base + (deleted + ToolDeletes(digest, db, e))
  {
    StepAccounts(digest, db, e);
  }

  /**
   Over every history, the claims this tool deleted are exactly the RELEASED rows it wrote,
   one to one and in order; everything the lifecycle deletes leaves no such row.
   */
  lemma {:induction false} DeletionsMatchReleases(digest: string -> string, db: Db, events: seq<Event>)
    requires Invariant(db)
    ensures ReleasedIds(Run(digest, db, events).audit) == ReleasedIds(db.audit) + DeletedByTool(digest, db, events)
  {
    if events != [] {
      var before := events[..|events| - 1];
      DeletionsMatchReleases(digest, db, before);
      InvariantThroughout(digest, db, before);
      var last, deleted := events[|events| - 1], DeletedByTool(digest, db, before);
      Accumulate(digest, Run(digest, db, before), last, ReleasedIds(db.audit), deleted);
    }
  }

  lemma {:induction false} ReleasedIdsFacts(audit: seq<AuditRow>)
    ensures forall id :: id in ReleasedIds(audit) <==> WasReleased(audit, id)
  {
    if audit != [] {
      ReleasedIdsFacts(audit[..|audit| - 1]);
      assert audit == audit[..|audit| - 1] + [audit[|audit| - 1]];
    }
  }

  ghost predicate NoDuplicates(ids: seq<OpId>) {
    forall i, j | 0 <= i < j < |ids| :: ids[i] != ids[j]
  }

  /** No operation is released twice, over any history from an empty audit log. */
  lemma {:induction false} AtMostOneRelease(digest: string -> string, db: Db, events: seq<Event>)
    requires Invariant(db) && NoDuplicates(ReleasedIds(db.audit))
    ensures NoDuplicates(ReleasedIds(Run(digest, db, events).audit))
  {
    if events != [] {
      var before := events[..|events| - 1];
      var was := Run(digest, db, before);
      AtMostOneRelease(digest, db, before);
      InvariantThroughout(digest, db, before);
      match events[|events| - 1]
      case Command(i, now) =>
        CommandAccounts(digest, was, i, now);
        if Releases(digest, was, i, now) {
          var at := ReleaseEffect(digest, was, i, now);
          CutRemovesOne(was.claims, at);
          ReleaseIsJustified(digest, was, i, now);
          ReleasedIdsFacts(was.audit);
        } else {
          OtherEffect(digest, was, i, now);
          RemovedNothing(was.claims, was.claims);
        }
      case e => LifecycleKeeps(digest, was, e);
    }
  }

  /**
   Every release in any history was justified when it was granted - the window it names
   covers the operation, and a DISPATCHED claim was at least 15 minutes old - and the
   released operation never holds a claim again.
   */
  lemma ReleasesStayJustified(digest: string -> string, db: Db, events: seq<Event>, row: AuditRow)
    requires Invariant(db)
    requires row in Run(digest, db, events).audit && row.Entry? && row.disposition.Released?
    ensures Justified(row.facts) && ClaimOf(Run(digest, db, events).claims, row.operationId).None?
  {
    InvariantThroughout(digest, db, events);
  }

  lemma CommandKeepsKeys(digest: string -> string, db: Db, i: Input, now: int)
    requires KeysHold(db)
    ensures KeysHold(Reconcile(digest, db, i, now).0)
  {
    if Releases(digest, db, i, now) {
      var at := ReleaseEffect(digest, db, i, now);
      assert forall c <- Cut(db.claims, at) :: c in db.claims;
    } else {
      OtherEffect(digest, db, i, now);
    }
  }

  lemma CommandKeepsOperations(digest: string -> string, db: Db, i: Input, now: int)
    requires KeysHold(db)
    ensures var after := Reconcile(digest, db, i, now).0;
            after.operations == db.operations && KeysHold(after) && db.audit <= after.audit
  {
    CommandKeepsKeys(digest, db, i, now);
    WrittenExactly(digest, db, i, now);
  }

  /** The commands of a history change no operation and no evidence: only the lifecycle does. */
  lemma {:induction false} CommandsChangeNoOperation(digest: string -> string, db: Db, events: seq<Event>)
    requires KeysHold(db) && forall e <- events :: e.Command?
    ensures Run(digest, db, events).operations == db.operations && KeysHold(Run(digest, db, events))
    ensures db.audit <= Run(digest, db, events).audit
  {
    if events != [] {
      var before, e := events[..|events| - 1], events[|events| - 1];
      assert e in events && forall x <- before :: x in events;
      CommandsChangeNoOperation(digest, db, before);
      CommandKeepsOperations(digest, Run(digest, db, before), e.input, e.now);
    }
  }

  // ---------------------------------------------------------------------------
  // Who decided
  // ---------------------------------------------------------------------------

  lemma StepNamesOperator(digest: string -> string, db: Db, e: Event)
    requires Invariant(db)
    ensures Step(digest, db, e).users == db.users
    ensures forall row <- Step(digest, db, e).audit ::
              row in db.audit || (row.Entry? && Authorised(db.users, row.facts.operator))
  {
    match e
    case Command(i, now) =>
      WrittenExactly(digest, db, i, now);
      OperatorDecides(digest, db, i, now);
    case _ => LifecycleKeeps(digest, db, e);
  }

  /**
   Over every history, whatever a command has put on record since - a release or a review -
   names an operator who is the one user of that address, active, and an accountant or an
   administrator.
   */
  lemma {:induction false} RecordsNameAuthorisedOperators(digest: string -> string, db: Db, events: seq<Event>)
    requires Invariant(db)
    ensures Run(digest, db, events).users == db.users
    ensures forall row <- Run(digest, db, events).audit ::
              row in db.audit || (row.Entry? && Authorised(db.users, row.facts.operator))
  {
    if events != [] {
      var before := events[..|events| - 1];
      RecordsNameAuthorisedOperators(digest, db, before);
      InvariantThroughout(digest, db, before);
      StepNamesOperator(digest, Run(digest, db, before), events[|events| - 1]);
    }
  }

  /** An operation starts prepared, without times or evidence; an id that is taken is left alone. */
  lemma PreparedExactly(digest: string -> string, db: Db, id: OpId, op: Operation)
    ensures var after := Step(digest, db, Prepare(id, op));
            if id in db.operations then after == db
            else
              && after.claims == db.claims && after.audit == db.audit && after.users == db.users
              && after.operations == db.operations[id :=
                   Operation(op.mode, op.gstin, op.level, Prepared, None, None, false, op.estimatedCredits)]
  {
  }

  /**
   The life of a claim outside the command: it is taken for a prepared operation while its key
   is free and goes when the operation succeeds, fails for certain or is served from the
   cache; an uncertain end keeps it. No other claim is touched.
   */
  lemma ClaimLife(digest: string -> string, db: Db, e: Event)
    requires KeysHold(db) && !e.Command? && !e.Prepare?
    ensures var after := Step(digest, db, e);
            && (e.Acquire? ==>
                  if && e.id in db.operations && db.operations[e.id].outcome == Prepared
                     && forall c <- db.claims :: c.key != e.key && c.operationId != e.id
                  then
                    && after.claims == db.claims + [Claim(e.key, e.id)]
                    && after.operations == db.operations[e.id :=
                         db.operations[e.id].(outcome := Dispatched, dispatchedAt := Some(e.now))]
                  else after == db)
            && (e.Fail? && e.uncertain ==> after.claims == db.claims)
            && (e.id !in db.operations ==> after == db)
            && (e.id in db.operations && (e.HitCache? || (e.Fail? && !e.uncertain)
                                          || (e.Complete? && !db.operations[e.id].hasEvidence)) ==>
                  forall c :: c in after.claims <==> c in db.claims && c.operationId != e.id)
            && (forall id <- db.operations ::
                  id != e.id ==> id in after.operations && after.operations[id] == db.operations[id])
            && (e.id in db.operations && !e.Acquire? && after != db ==>
                  && after.operations[e.id].completedAt == Some(e.now)
                  && after.operations[e.id].dispatchedAt == db.operations[e.id].dispatchedAt
                  && after.operations[e.id].hasEvidence == (e.Complete? || db.operations[e.id].hasEvidence)
                  && after.operations[e.id].outcome ==
                       if e.Complete? then Succeeded else if e.HitCache? then CacheHit
                       else if e.uncertain then Uncertain else FailedOutcome)
  {
    WithoutOperationFacts(db.claims, e.id);
  }

  // ---------------------------------------------------------------------------
  // The review's eligibility, along a history
  // ---------------------------------------------------------------------------

  /** Every claim belongs to an operation that was dispatched at some time. */
  ghost predicate ClaimsDispatched(db: Db) {
    forall c <- db.claims ::
      && c.operationId in db.operations && !db.operations[c.operationId].outcome.Prepared?
      && db.operations[c.operationId].dispatchedAt.Some?
  }

  lemma DispatchedCommand(digest: string -> string, db: Db, i: Input, now: int)
    requires Invariant(db) && ClaimsDispatched(db)
    ensures ClaimsDispatched(Reconcile(digest, db, i, now).0)
  {
    WrittenExactly(digest, db, i, now);
    OtherClaims(digest, db, i, now);
  }

  lemma OtherClaims(digest: string -> string, db: Db, i: Input, now: int)
    requires KeysHold(db)
    ensures forall c <- Reconcile(digest, db, i, now).0.claims :: c in db.claims
  {
    if Releases(digest, db, i, now) {
      var at := ReleaseEffect(digest, db, i, now);
      assert forall c <- Cut(db.claims, at) :: c in db.claims;
    } else {
      OtherEffect(digest, db, i, now);
    }
  }

  lemma DispatchedStep(digest: string -> string, db: Db, e: Event)
    requires Invariant(db) && ClaimsDispatched(db)
    ensures ClaimsDispatched(Step(digest, db, e))
  {
    match e
    case Command(i, now) => DispatchedCommand(digest, db, i, now);
    case _ => WithoutOperationFacts(db.claims, e.id);
  }

  /** Claims are created together with the dispatch time, and no step takes that away. */
  lemma {:induction false} DispatchedThroughout(digest: string -> string, db: Db, events: seq<Event>)
    requires Invariant(db) && ClaimsDispatched(db)
    ensures ClaimsDispatched(Run(digest, db, events))
  {
    if events != [] {
      var before := events[..|events| - 1];
      DispatchedThroughout(digest, db, before);
      InvariantThroughout(digest, db, before);
      DispatchedStep(digest, Run(digest, db, before), events[|events| - 1]);
    }
  }

  /**
   In every state of every history the review's readiness is right about every held row:
   any authorised operator can release it, now or later.
   */
  lemma HeldIsReleasable(
    digest: string -> string, db: Db, events: seq<Event>, ids: seq<OpId>, now: int, row: GstReview.Row, email: string)
    requires Invariant(db) && ClaimsDispatched(db)
    requires forall id <- ids :: id in Run(digest, db, events).operations
    requires row in GstReview.Review(digest, Run(digest, db, events), ids, now).held
    requires OperatorRefusal(Run(digest, db, events).users, email).None?
    ensures GstReview.ReleasableLater(digest, Run(digest, db, events), row.operationId, now)
  {
    var w := Run(digest, db, events);
    InvariantThroughout(digest, db, events);
    DispatchedThroughout(digest, db, events);
    GstReview.HeldMeans(digest, w, ids, now, row);
    GstReview.HeldReleasableExactly(digest, w, ids, now, row, email);
  }

  function PreparedTables(op: Operation, users: seq<User>): Db {
    var prepared := Operation(op.mode, op.gstin, op.level, Prepared, None, None, false, op.estimatedCredits);
    Db(map["op" := prepared], [], [], users)
  }

  function DispatchedTables(op: Operation, now: int, users: seq<User>): Db {
    Db(map["op" := op.(outcome := Dispatched, dispatchedAt := Some(now), completedAt := None, hasEvidence := false)],
       [Claim(ClaimKeyFor(op), "op")], [], users)
  }

  lemma PrepareHappens(digest: string -> string, op: Operation, users: seq<User>)
    ensures Run(digest, Db(map[], [], [], users), [Prepare("op", op)]) == PreparedTables(op, users)
  {
    var db, prepare := Db(map[], [], [], users), Prepare("op", op);
    PreparedExactly(digest, db, "op", op);
    assert [prepare][..0] == [];
  }

  lemma DispatchHappens(digest: string -> string, op: Operation, now: int, users: seq<User>)
    ensures Run(digest, Db(map[], [], [], users), [Prepare("op", op), Acquire("op", ClaimKeyFor(op), now)])
            == DispatchedTables(op, now, users)
  {
    PrepareHappens(digest, op, users);
    var prepare, acquire := Prepare("op", op), Acquire("op", ClaimKeyFor(op), now);
    assert [prepare, acquire][..1] == [prepare];
  }

  lemma UncertainIsListed(digest: string -> string, op: Operation, now: int, users: seq<User>)
    ensures var w := Step(digest, DispatchedTables(op, now, users), Fail("op", true, now));
            && w.operations.Keys == {"op"} && w.users == users
            && GstReview.BuildRow(digest, w, "op", now).readiness.EligibleForEvidence?
            && GstReview.BuildRow(digest, w, "op", now) in GstReview.Review(digest, w, ["op"], now).held
  {
    var w := Step(digest, DispatchedTables(op, now, users), Fail("op", true, now));
    assert ClaimOf(w.claims, "op") == Some(Claim(ClaimKeyFor(op), "op"));
    GstReview.HeldRowIsListed(digest, w, ["op"], now, "op");
  }

  lemma ThreeEvents(digest: string -> string, op: Operation, now: int, users: seq<User>)
    ensures Run(digest, Db(map[], [], [], users),
                [Prepare("op", op), Acquire("op", ClaimKeyFor(op), now), Fail("op", true, now)])
            == Step(digest, DispatchedTables(op, now, users), Fail("op", true, now))
  {
    DispatchHappens(digest, op, now, users);
    var prepare, acquire, fail := Prepare("op", op), Acquire("op", ClaimKeyFor(op), now), Fail("op", true, now);
    assert [prepare, acquire, fail][..2] == [prepare, acquire];
  }

  /** Such rows do arise: a verification that is prepared, dispatched and ends uncertain is listed as eligible. */
  lemma EligibleRowArises(digest: string -> string, op: Operation, now: int, users: seq<User>)
    returns (db: Db, events: seq<Event>, row: GstReview.Row)
    ensures Invariant(db) && ClaimsDispatched(db) && Run(digest, db, events).operations.Keys == {"op"}
    ensures row in GstReview.Review(digest, Run(digest, db, events), ["op"], now).held
    ensures row.readiness.EligibleForEvidence?
    ensures Run(digest, db, events).users == users
  {
    db := Db(map[], [], [], users);
    events := [Prepare("op", op), Acquire("op", ClaimKeyFor(op), now), Fail("op", true, now)];
    ThreeEvents(digest, op, now, users);
    UncertainIsListed(digest, op, now, users);
    row := GstReview.BuildRow(digest, Run(digest, db, events), "op", now);
  }
}
