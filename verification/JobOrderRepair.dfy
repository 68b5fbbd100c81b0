/**
 Repairing job orders left half completed
 (apps/api/src/cli/job-order-completion-reconciliation.ts:102-265), with the row update of
 apps/api/src/modules/job-orders/job-orders.service.ts:2216-2259.
 */
module JobOrderRepair {
  import opened Prelude

  datatype StageStatus = NotStarted | InProgress | Completed

  datatype Stage = Stage(id: string, status: StageStatus)

  datatype Disposition = Draft | AwaitingReinspection | Released | PermanentlyRejected | Cancelled

  datatype Batch = Batch(activity: string, disposition: Disposition, quantity: int)

  datatype Form = Form(activityType: string, scope: string)

  datatype Activity = Activity(
    id: string, status: string, activityType: string, mode: Option<string>, multiplicity: Option<string>,
    coverage: Option<string>, form: Option<Form>)

  datatype Status = ProductionComplete | Another(name: string)

  /** A job order; `lines` holds the ordered quantities, `stages` are listed by sequence. */
  datatype JobOrder = JobOrder(
    id: string, status: Status, completedAt: Option<int>, lines: seq<int>, prepared: int,
    activities: seq<Activity>, batches: seq<Batch>, stages: seq<Stage>)

  datatype Candidate = Candidate(id: string, ordered: int, prepared: int, covered: int, finalStage: string)

  datatype Reason = NoFinalActivity | PreparedMismatch | QualityUnresolved | FinalStageNotSolelyOpen

  datatype Skip = Skip(id: string, reason: Reason)

  datatype Verdict = Repair(candidate: Candidate) | Leave(reason: Reason)

  /** isProcessFlowFinalActivity. */
  predicate IsFinal(a: Activity) {
    && a.status == "ACTIVE" && a.activityType == "QUALITY" && a.mode == Some("IN_PROCESS")
    && a.multiplicity == Some("BATCHED") && a.coverage == Some("PREPARED_QUANTITY")
    && a.form == Some(Form("INSPECTION", "JOB_ORDER"))
  }

  function FindFinal(activities: seq<Activity>): (found: Option<Activity>)
    ensures found.Some? ==> found.value in activities && IsFinal(found.value)
    ensures found.None? <==> forall a <- activities :: !IsFinal(a)
  {
    if activities == [] then None
    else if IsFinal(activities[0]) then Some(activities[0])
    else FindFinal(activities[1..])
  }

  function Sum(quantities: seq<int>): int {
    if quantities == [] then 0 else Sum(quantities[..|quantities| - 1]) + quantities[|quantities| - 1]
  }

  /** The batches of an activity that are not cancelled. */
  function Physical(batches: seq<Batch>, activity: string): seq<Batch> {
    if batches == [] then []
    else
      var last := batches[|batches| - 1];
      Physical(batches[..|batches| - 1], activity)
      + if last.activity == activity && last.disposition != Cancelled then [last] else []
  }

  function Quantities(batches: seq<Batch>): seq<int> {
    seq(|batches|, i requires 0 <= i < |batches| => batches[i].quantity)
  }

  function OpenStages(stages: seq<Stage>): seq<Stage> {
    if stages == [] then []
    else
      var last := stages[|stages| - 1];
      OpenStages(stages[..|stages| - 1]) + if last.status != Completed then [last] else []
  }

  /** The decision of the planner about one row. */
  function Assess(j: JobOrder): Verdict {
    var ordered, final := Sum(j.lines), FindFinal(j.activities);
    if final.None? then Leave(NoFinalActivity)
    else if ordered <= 0 || j.prepared != ordered then Leave(PreparedMismatch)
    else
      var batches := Physical(j.batches, final.value.id);
      var covered := Sum(Quantities(batches));
      if || batches == [] || covered != j.prepared
         || exists b <- batches :: b.disposition !in {Released, PermanentlyRejected}
      then Leave(QualityUnresolved)
      else
        var open := OpenStages(j.stages);
        if j.stages == [] || |open| != 1 || open[0].id != j.stages[|j.stages| - 1].id || open[0].status != InProgress
        then Leave(FinalStageNotSolelyOpen)
        else Repair(Candidate(j.id, ordered, j.prepared, covered, open[0].id))
  }

  predicate DistinctStages(stages: seq<Stage>) {
    forall i, j | 0 <= i < j < |stages| :: stages[i].id != stages[j].id
  }

  predicate OnlyLastOpen(stages: seq<Stage>) {
    && stages != [] && stages[|stages| - 1].status == InProgress
    && forall i | 0 <= i < |stages| - 1 :: stages[i].status == Completed
  }

  /** The resolved batches of the final activity cover the prepared quantity. */
  predicate QualityResolved(j: JobOrder, activity: string) {
    && (exists b <- j.batches :: b.activity == activity && b.disposition != Cancelled)
    && (forall b <- j.batches :: b.activity == activity ==> b.disposition in {Released, PermanentlyRejected, Cancelled})
    && Sum(Quantities(Physical(j.batches, activity))) == j.prepared
  }

  /** What makes a row repairable, in terms of the row alone. */
  predicate Repairable(j: JobOrder) {
    && FindFinal(j.activities).Some?
    && j.prepared == Sum(j.lines) > 0
    && QualityResolved(j, FindFinal(j.activities).value.id)
    && OnlyLastOpen(j.stages)
  }

  lemma {:induction false} PhysicalExactly(batches: seq<Batch>, activity: string)
    ensures forall b :: b in Physical(batches, activity) <==>
              b in batches && b.activity == activity && b.disposition != Cancelled
  {
    if batches != [] {
      var before, last := batches[..|batches| - 1], batches[|batches| - 1];
      PhysicalExactly(before, activity);
      assert batches == before + [last];
    }
  }

  lemma {:induction false} OpenExactly(stages: seq<Stage>)
    ensures forall s :: s in OpenStages(stages) <==> s in stages && s.status != Completed
    ensures OpenStages(stages) == [] <==> forall s <- stages :: s.status == Completed
  {
    if stages != [] {
      var before, last := stages[..|stages| - 1], stages[|stages| - 1];
      OpenExactly(before);
      assert stages == before + [last];
      var open := OpenStages(stages);
      assert open == [] || open[0] in open;
    }
  }

  lemma SoleOpenStage(stages: seq<Stage>)
    requires DistinctStages(stages) && stages != []
    ensures var open, last := OpenStages(stages), stages[|stages| - 1];
            OnlyLastOpen(stages) <==> |open| == 1 && open[0].id == last.id && open[0].status == InProgress
  {
    var open, before, last := OpenStages(stages), stages[..|stages| - 1], stages[|stages| - 1];
    OpenExactly(before);
    if |open| == 1 && open[0].id == last.id && open[0].status == InProgress {
      OpenExactly(stages);
      assert open[0] in open;
      var i :| 0 <= i < |stages| && stages[i] == open[0];
      assert last.status == InProgress;
      assert OpenStages(before) == [];
      assert forall k | 0 <= k < |before| :: before[k] in before;
    }
  }

  /** Stage ids being unique, a row becomes a candidate exactly when it is repairable. */
  lemma AssessExactly(j: JobOrder)
    requires DistinctStages(j.stages)
    ensures Assess(j).Repair? <==> Repairable(j)
    ensures Assess(j).Repair? ==>
              Assess(j) == Repair(Candidate(j.id, j.prepared, j.prepared, j.prepared, j.stages[|j.stages| - 1].id))
  {
    var final := FindFinal(j.activities);
    if final.Some? {
      PhysicalExactly(j.batches, final.value.id);
      var batches := Physical(j.batches, final.value.id);
      if batches != [] { assert batches[0] in batches; }
      if j.stages != [] { SoleOpenStage(j.stages); }
    }
  }

  // ---------------------------------------------------------------------------
  // Planning
  // ---------------------------------------------------------------------------

  datatype Plan = Plan(inspected: nat, candidates: seq<Candidate>, skipped: seq<Skip>)

  function CandidatesOf(rows: seq<JobOrder>): seq<Candidate> {
    if rows == [] then []
    else
      var v := Assess(rows[|rows| - 1]);
      CandidatesOf(rows[..|rows| - 1]) + if v.Repair? then [v.candidate] else []
  }

  function SkipsOf(rows: seq<JobOrder>): seq<Skip> {
    if rows == [] then []
    else
      var v := Assess(rows[|rows| - 1]);
      SkipsOf(rows[..|rows| - 1]) + if v.Leave? then [Skip(rows[|rows| - 1].id, v.reason)] else []
  }

  function PlanOf(rows: seq<JobOrder>): Plan {
    Plan(|rows|, CandidatesOf(rows), SkipsOf(rows))
  }

  /** The loop of planCompletionReconciliation. */
  method PlanRepairs(rows: seq<JobOrder>) returns (plan: Plan)
    ensures plan == PlanOf(rows)
  {
    var candidates: seq<Candidate>, skipped: seq<Skip> := [], [];
    for n := 0 to |rows|
      invariant candidates == CandidatesOf(rows[..n]) && skipped == SkipsOf(rows[..n])
    {
      assert rows[..n + 1][..n] == rows[..n];
      match Assess(rows[n])
      case Repair(c) => candidates := candidates + [c];
      case Leave(reason) => skipped := skipped + [Skip(rows[n].id, reason)];
    }
    assert rows[..|rows|] == rows;
    plan := Plan(|rows|, candidates, skipped);
  }

  function Count(skipped: seq<Skip>, reason: Reason): nat {
    if skipped == [] then 0
    else Count(skipped[..|skipped| - 1], reason) + if skipped[|skipped| - 1].reason == reason then 1 else 0
  }

  /** summarizeReconciliationPlan: the four counters. */
  method Summarize(plan: Plan) returns (noFinal: nat, mismatch: nat, unresolved: nat, notOpen: nat)
    ensures noFinal == Count(plan.skipped, NoFinalActivity) && mismatch == Count(plan.skipped, PreparedMismatch)
    ensures unresolved == Count(plan.skipped, QualityUnresolved)
    ensures notOpen == Count(plan.skipped, FinalStageNotSolelyOpen)
    ensures noFinal + mismatch + unresolved + notOpen == |plan.skipped|
  {
    noFinal, mismatch, unresolved, notOpen := 0, 0, 0, 0;
    for n := 0 to |plan.skipped|
      invariant noFinal == Count(plan.skipped[..n], NoFinalActivity)
      invariant mismatch == Count(plan.skipped[..n], PreparedMismatch)
      invariant unresolved == Count(plan.skipped[..n], QualityUnresolved)
      invariant notOpen == Count(plan.skipped[..n], FinalStageNotSolelyOpen)
      invariant noFinal + mismatch + unresolved + notOpen == n
    {
      assert plan.skipped[..n + 1][..n] == plan.skipped[..n];
      match plan.skipped[n].reason
      case NoFinalActivity => noFinal := noFinal + 1;
      case PreparedMismatch => mismatch := mismatch + 1;
      case QualityUnresolved => unresolved := unresolved + 1;
      case FinalStageNotSolelyOpen => notOpen := notOpen + 1;
    }
    assert plan.skipped[..|plan.skipped|] == plan.skipped;
  }

  lemma {:induction false} CandidatesExactly(rows: seq<JobOrder>)
    ensures forall c :: c in CandidatesOf(rows) <==> exists j :: j in rows && Assess(j) == Repair(c)
  {
    if rows != [] {
      var before, last := rows[..|rows| - 1], rows[|rows| - 1];
      CandidatesExactly(before);
      assert rows == before + [last];
    }
  }

  lemma {:induction false} SkipsExactly(rows: seq<JobOrder>)
    ensures forall s :: s in SkipsOf(rows) <==> exists j :: j in rows && Assess(j) == Leave(s.reason) && j.id == s.id
    ensures |CandidatesOf(rows)| + |SkipsOf(rows)| == |rows|
  {
    if rows != [] {
      var before, last := rows[..|rows| - 1], rows[|rows| - 1];
      SkipsExactly(before);
      assert rows == before + [last];
    }
  }

  /** Every inspected row is a candidate or a skip: the plan's two lists are complementary. */
  lemma EveryRowIsPlanned(rows: seq<JobOrder>)
    ensures |CandidatesOf(rows)| + |SkipsOf(rows)| == |rows|
    ensures forall c :: c in CandidatesOf(rows) <==> exists j :: j in rows && Assess(j) == Repair(c)
    ensures forall s :: s in SkipsOf(rows) <==> exists j :: j in rows && Assess(j) == Leave(s.reason) && j.id == s.id
  {
    CandidatesExactly(rows);
    SkipsExactly(rows);
  }

  // ---------------------------------------------------------------------------
  // Execution
  // ---------------------------------------------------------------------------

  datatype Action = CompletionBackfilled | StageCompleted(stage: string)

  datatype Entry = Entry(id: string, action: Action)

  datatype Store = Store(orders: map<string, JobOrder>, audit: seq<Entry>)

  /** Rows sit under their own id, and their stages have distinct ids. */
  predicate Valid(s: Store) {
    forall id <- s.orders :: s.orders[id].id == id && DistinctStages(s.orders[id].stages)
  }

  function FindStage(stages: seq<Stage>, id: string): (found: Option<Stage>)
    ensures found.Some? ==> found.value in stages && found.value.id == id
    ensures found.None? <==> forall s <- stages :: s.id != id
  {
    if stages == [] then None
    else if stages[0].id == id then Some(stages[0])
    else FindStage(stages[1..], id)
  }

  predicate StillEligible(j: JobOrder, finalStage: string) {
    && j.status == ProductionComplete && j.completedAt == None
    && (forall s <- j.stages :: s.id == finalStage || s.status == Completed)
    && FindStage(j.stages, finalStage).Some? && FindStage(j.stages, finalStage).value.status == InProgress
  }

  predicate Matches(s: Stage, id: string) {
    s.id == id && s.status != Completed
  }

  function Finish(stages: seq<Stage>, id: string): (now: seq<Stage>)
    ensures |now| == |stages|
    ensures forall i | 0 <= i < |stages| :: now[i] == if Matches(stages[i], id) then Stage(id, Completed) else stages[i]
  {
    seq(|stages|, i requires 0 <= i < |stages| => if Matches(stages[i], id) then Stage(id, Completed) else stages[i])
  }

  function MatchCount(stages: seq<Stage>, id: string): nat {
    if stages == [] then 0
    else MatchCount(stages[..|stages| - 1], id) + if Matches(stages[|stages| - 1], id) then 1 else 0
  }

  datatype Outcome = Outcome(store: Store, repaired: bool)

  /** One transaction, with the branch the source takes when the stage update matches no row or several. */
  function Transact(s: Store, c: Candidate, now: int): Outcome {
    if c.id !in s.orders || !StillEligible(s.orders[c.id], c.finalStage) then Outcome(s, false)
    else
      var j := s.orders[c.id].(completedAt := Some(now));
      var log := s.audit + [Entry(c.id, CompletionBackfilled)];
      var finished := j.(stages := Finish(j.stages, c.finalStage));
      if MatchCount(j.stages, c.finalStage) != 1 then Outcome(Store(s.orders[c.id := finished], log), false)
      else Outcome(Store(s.orders[c.id := finished], log + [Entry(c.id, StageCompleted(c.finalStage))]), true)
  }

  /** The state after the whole list, each transaction reading the clock once. */
  function TransactAll(s: Store, cs: seq<Candidate>, clock: nat -> int): Store {
    if cs == [] then s
    else
      var n := |cs| - 1;
      Transact(TransactAll(s, cs[..n], clock), cs[n], clock(n)).store
  }

  /** The ids whose transaction had this outcome, in order. */
  function IdsWith(s: Store, cs: seq<Candidate>, clock: nat -> int, repaired: bool): seq<string> {
    if cs == [] then []
    else
      var n := |cs| - 1;
      IdsWith(s, cs[..n], clock, repaired)
      + if Transact(TransactAll(s, cs[..n], clock), cs[n], clock(n)).repaired == repaired then [cs[n].id] else []
  }

  class Repairer {
    var store: Store

    /** executeCompletionReconciliation. */
    method Execute(cs: seq<Candidate>, clock: nat -> int) returns (repaired: seq<string>, stale: seq<string>)
      modifies this
      ensures store == TransactAll(old(store), cs, clock)
      ensures repaired == IdsWith(old(store), cs, clock, true) && stale == IdsWith(old(store), cs, clock, false)
      ensures |repaired| + |stale| == |cs|
    {
      repaired, stale := [], [];
      for n := 0 to |cs|
        invariant store == TransactAll(old(store), cs[..n], clock)
        invariant repaired == IdsWith(old(store), cs[..n], clock, true)
        invariant stale == IdsWith(old(store), cs[..n], clock, false)
        invariant |repaired| + |stale| == n
      {
        assert cs[..n + 1][..n] == cs[..n];
        var outcome := Transact(store, cs[n], clock(n));
        store := outcome.store;
        if outcome.repaired {
          repaired := repaired + [cs[n].id];
        } else {
          stale := stale + [cs[n].id];
        }
      }
      assert cs[..|cs|] == cs;
    }
  }

  lemma {:induction false} NoMatch(stages: seq<Stage>, id: string)
    requires forall s <- stages :: s.id != id
    ensures MatchCount(stages, id) == 0
  {
    if stages != [] {
      NoMatch(stages[..|stages| - 1], id);
      assert stages[|stages| - 1] in stages;
    }
  }

  lemma {:induction false} OneMatch(stages: seq<Stage>, id: string, i: nat)
    requires DistinctStages(stages) && i < |stages| && stages[i].id == id && stages[i].status != Completed
    ensures MatchCount(stages, id) == 1
  {
    var before := stages[..|stages| - 1];
    if i == |stages| - 1 {
      NoMatch(before, id);
    } else {
      OneMatch(before, id, i);
    }
  }

  /** The stage an eligible candidate names is the only open one of its order. */
  lemma EligibleMeans(j: JobOrder, id: string) returns (i: nat)
    requires DistinctStages(j.stages) && StillEligible(j, id)
    ensures i < |j.stages| && j.stages[i] == Stage(id, InProgress) && MatchCount(j.stages, id) == 1
    ensures forall k | 0 <= k < |j.stages| && k != i :: j.stages[k].status == Completed
    ensures forall s <- Finish(j.stages, id) :: s.status == Completed
  {
    var found := FindStage(j.stages, id).value;
    i :| 0 <= i < |j.stages| && j.stages[i] == found;
    OneMatch(j.stages, id, i);
    forall k | 0 <= k < |j.stages| && k != i ensures j.stages[k].status == Completed {
      assert j.stages[k] in j.stages;
    }
  }

  predicate Repairs(s: Store, c: Candidate) {
    c.id in s.orders && StillEligible(s.orders[c.id], c.finalStage)
  }

  function AllFinished(stages: seq<Stage>): (now: seq<Stage>)
    ensures |now| == |stages| && forall i | 0 <= i < |stages| :: now[i] == Stage(stages[i].id, Completed)
  {
    seq(|stages|, i requires 0 <= i < |stages| => Stage(stages[i].id, Completed))
  }

  /**
   A transaction repairs the order completely, with both audit entries, or writes nothing
   at all: the branch that leaves an order half repaired is never taken.
   */
  lemma RepairIsWholeOrNothing(s: Store, c: Candidate, now: int)
    requires Valid(s)
    ensures Transact(s, c, now).repaired <==> Repairs(s, c)
    ensures !Repairs(s, c) ==> Transact(s, c, now).store == s
    ensures Repairs(s, c) ==>
              var j := s.orders[c.id];
              Transact(s, c, now).store == Store(
                s.orders[c.id := j.(completedAt := Some(now), stages := AllFinished(j.stages))],
                s.audit + [Entry(c.id, CompletionBackfilled), Entry(c.id, StageCompleted(c.finalStage))])
    ensures Valid(Transact(s, c, now).store)
  {
    if Repairs(s, c) {
      var j := s.orders[c.id];
      var i := EligibleMeans(j, c.finalStage);
      assert Finish(j.stages, c.finalStage) == AllFinished(j.stages);
    }
  }

  /** An order already carrying a completion time is left exactly as it is by any list of candidates. */
  lemma {:induction false} CompletedOrdersStay(s: Store, cs: seq<Candidate>, clock: nat -> int)
    requires Valid(s)
    ensures Valid(TransactAll(s, cs, clock)) && TransactAll(s, cs, clock).orders.Keys == s.orders.Keys
    ensures forall id <- s.orders | s.orders[id].completedAt.Some? || s.orders[id].status != ProductionComplete ::
              TransactAll(s, cs, clock).orders[id] == s.orders[id]
  {
    if cs != [] {
      var n := |cs| - 1;
      CompletedOrdersStay(s, cs[..n], clock);
      RepairIsWholeOrNothing(TransactAll(s, cs[..n], clock), cs[n], clock(n));
    }
  }

  lemma StaysRefused(s: Store, c: Candidate, d: Candidate, now: int)
    requires Valid(s)
    ensures !Repairs(Transact(s, c, now).store, c)
    ensures !Repairs(s, d) ==> !Repairs(Transact(s, c, now).store, d)
  {
    RepairIsWholeOrNothing(s, c, now);
  }

  lemma {:induction false} NothingLeftToRepair(s: Store, cs: seq<Candidate>, clock: nat -> int)
    requires Valid(s)
    ensures forall c <- cs :: !Repairs(TransactAll(s, cs, clock), c)
  {
    if cs != [] {
      var n := |cs| - 1;
      NothingLeftToRepair(s, cs[..n], clock);
      CompletedOrdersStay(s, cs[..n], clock);
      forall c <- cs ensures !Repairs(TransactAll(s, cs, clock), c) {
        StaysRefused(TransactAll(s, cs[..n], clock), cs[n], c, clock(n));
        assert c == cs[n] || c in cs[..n];
      }
    }
  }

  lemma {:induction false} RefusedListIsNoOp(s: Store, cs: seq<Candidate>, clock: nat -> int)
    requires Valid(s) && forall c <- cs :: !Repairs(s, c)
    ensures TransactAll(s, cs, clock) == s && IdsWith(s, cs, clock, true) == []
  {
    if cs != [] {
      var n := |cs| - 1;
      RefusedListIsNoOp(s, cs[..n], clock);
      RepairIsWholeOrNothing(s, cs[n], clock(n));
    }
  }

  /** Any list, run a second time at any later times, repairs nothing and changes nothing, audit included. */
  lemma SecondExecutionDoesNothing(s: Store, cs: seq<Candidate>, clock: nat -> int, later: nat -> int)
    requires Valid(s)
    ensures var now := TransactAll(s, cs, clock);
            TransactAll(now, cs, later) == now && IdsWith(now, cs, later, true) == []
  {
    NothingLeftToRepair(s, cs, clock);
    CompletedOrdersStay(s, cs, clock);
    RefusedListIsNoOp(TransactAll(s, cs, clock), cs, later);
  }

  // ---------------------------------------------------------------------------
  // A fresh plan, executed
  // ---------------------------------------------------------------------------

  predicate Pending(j: JobOrder) {
    j.status == ProductionComplete && j.completedAt == None
  }

  /** loadReconciliationCandidateRows: each pending order once, in the table's order. */
  ghost predicate Loaded(rows: seq<JobOrder>, s: Store) {
    && (forall i, j | 0 <= i < j < |rows| :: rows[i].id != rows[j].id)
    && forall j :: j in rows <==> j.id in s.orders && s.orders[j.id] == j && Pending(j)
  }

  function CandidateIds(cs: seq<Candidate>): seq<string> {
    if cs == [] then [] else CandidateIds(cs[..|cs| - 1]) + [cs[|cs| - 1].id]
  }

  ghost predicate IdsDistinct(cs: seq<Candidate>) {
    forall n | 0 <= n < |cs| :: cs[n].id !in CandidateIds(cs[..n])
  }

  lemma {:induction false} CandidateIdsExactly(rows: seq<JobOrder>)
    ensures forall id :: id in CandidateIds(CandidatesOf(rows)) <==>
              exists j :: j in rows && j.id == id && Assess(j).Repair?
  {
    if rows != [] {
      var before, last := rows[..|rows| - 1], rows[|rows| - 1];
      CandidateIdsExactly(before);
      assert rows == before + [last];
      LastCandidate(before, last);
    }
  }

  lemma LastCandidate(before: seq<JobOrder>, last: JobOrder)
    ensures Assess(last).Repair? ==> Assess(last).candidate.id == last.id
    ensures var cs := CandidatesOf(before);
            CandidatesOf(before + [last]) == if Assess(last).Repair? then cs + [Assess(last).candidate] else cs
    ensures CandidateIds(CandidatesOf(before + [last])) ==
            CandidateIds(CandidatesOf(before)) + if Assess(last).Repair? then [last.id] else []
  {
    assert (before + [last])[..|before|] == before;
    var cs := CandidatesOf(before + [last]);
    assert Assess(last).Repair? ==> cs[..|cs| - 1] == CandidatesOf(before);
  }

  lemma AppendDistinct(cs: seq<Candidate>, c: Candidate)
    requires IdsDistinct(cs) && c.id !in CandidateIds(cs)
    ensures IdsDistinct(cs + [c])
  {
    var all := cs + [c];
    forall n | 0 <= n < |all| ensures all[n].id !in CandidateIds(all[..n]) {
      if n < |cs| {
        assert all[..n] == cs[..n] && all[n] == cs[n];
      } else {
        assert all[..n] == cs && all[n] == c;
      }
    }
  }

  lemma UnseenId(rows: seq<JobOrder>, n: nat)
    requires n < |rows| && forall i | 0 <= i < n :: rows[i].id != rows[n].id
    ensures rows[n].id !in CandidateIds(CandidatesOf(rows[..n]))
  {
    CandidateIdsExactly(rows[..n]);
  }

  lemma NextCandidate(rows: seq<JobOrder>, n: nat) returns (next: Option<Candidate>)
    requires n + 1 == |rows|
    ensures next.Some? ==> next.value.id == rows[n].id
    ensures CandidatesOf(rows) == if next.Some? then CandidatesOf(rows[..n]) + [next.value] else CandidatesOf(rows[..n])
  {
    LastCandidate(rows[..n], rows[n]);
    assert rows == rows[..n] + [rows[n]];
    next := if Assess(rows[n]).Repair? then Some(Assess(rows[n]).candidate) else None;
  }

  lemma {:induction false} CandidateIdsDistinct(rows: seq<JobOrder>)
    requires forall i, j | 0 <= i < j < |rows| :: rows[i].id != rows[j].id
    ensures IdsDistinct(CandidatesOf(rows))
  {
    if rows != [] {
      var n := |rows| - 1;
      CandidateIdsDistinct(rows[..n]);
      var next := NextCandidate(rows, n);
      if next.Some? {
        UnseenId(rows, n);
        AppendDistinct(CandidatesOf(rows[..n]), next.value);
      }
    }
  }

  lemma RepairableIsEligible(j: JobOrder)
    requires DistinctStages(j.stages) && Pending(j) && Assess(j).Repair?
    ensures StillEligible(j, Assess(j).candidate.finalStage)
  {
    AssessExactly(j);
    var n := |j.stages| - 1;
    assert j.stages[n] in j.stages;
    forall s <- j.stages ensures s.id == j.stages[n].id || s.status == Completed {
      var k :| 0 <= k < |j.stages| && j.stages[k] == s;
    }
    var found := FindStage(j.stages, j.stages[n].id).value;
    var k :| 0 <= k < |j.stages| && j.stages[k] == found;
  }

  lemma {:induction false} FreshCandidatesEligible(s: Store, rows: seq<JobOrder>)
    requires Valid(s) && forall j <- rows :: j.id in s.orders && s.orders[j.id] == j && Pending(j)
    ensures forall c <- CandidatesOf(rows) :: Repairs(s, c)
  {
    if rows != [] {
      var before, last := rows[..|rows| - 1], rows[|rows| - 1];
      FreshCandidatesEligible(s, before);
      LastCandidate(before, last);
      assert rows == before + [last];
      if Assess(last).Repair? {
        RepairableIsEligible(last);
      }
    }
  }

  /** The order got a completion time and has all stages completed; nothing else changed. */
  predicate Finished(before: JobOrder, after: JobOrder) {
    after.completedAt.Some? && after == before.(completedAt := after.completedAt, stages := AllFinished(before.stages))
  }

  ghost predicate RepairedExactly(s: Store, now: Store, ids: seq<string>) {
    && Valid(now) && now.orders.Keys == s.orders.Keys && |now.audit| == |s.audit| + 2 * |ids|
    && forall id <- s.orders ::
         if id in ids then Finished(s.orders[id], now.orders[id]) else now.orders[id] == s.orders[id]
  }

  lemma OneMoreRepaired(s: Store, before: Store, ids: seq<string>, c: Candidate, now: int)
    requires Valid(s) && RepairedExactly(s, before, ids) && Repairs(s, c) && c.id !in ids
    ensures Transact(before, c, now).repaired && RepairedExactly(s, Transact(before, c, now).store, ids + [c.id])
  {
    RepairIsWholeOrNothing(before, c, now);
  }

  /** Distinct candidates that are all eligible are all repaired, and no other order changes. */
  lemma {:induction false} EligibleListIsRepaired(s: Store, cs: seq<Candidate>, clock: nat -> int)
    requires Valid(s) && IdsDistinct(cs) && forall c <- cs :: Repairs(s, c)
    ensures IdsWith(s, cs, clock, true) == CandidateIds(cs) && IdsWith(s, cs, clock, false) == []
    ensures RepairedExactly(s, TransactAll(s, cs, clock), CandidateIds(cs))
  {
    if cs != [] {
      var n := |cs| - 1;
      assert forall k | 0 <= k < n :: cs[..n][..k] == cs[..k];
      EligibleListIsRepaired(s, cs[..n], clock);
      OneMoreRepaired(s, TransactAll(s, cs[..n], clock), CandidateIds(cs[..n]), cs[n], clock(n));
    }
  }

  /**
   A fresh plan is repaired completely: nothing is stale, and the orders repaired are
   exactly the pending ones that are repairable. No other order changes.
   */
  lemma FreshPlanIsRepaired(s: Store, rows: seq<JobOrder>, clock: nat -> int)
    requires Valid(s) && Loaded(rows, s)
    ensures var cs := CandidatesOf(rows);
            IdsWith(s, cs, clock, true) == CandidateIds(cs) && IdsWith(s, cs, clock, false) == []
    ensures var now := TransactAll(s, CandidatesOf(rows), clock);
            && Valid(now) && now.orders.Keys == s.orders.Keys
            && forall id <- s.orders ::
                 if Pending(s.orders[id]) && Repairable(s.orders[id])
                 then Finished(s.orders[id], now.orders[id])
                 else now.orders[id] == s.orders[id]
  {
    var cs := CandidatesOf(rows);
    CandidateIdsDistinct(rows);
    FreshCandidatesEligible(s, rows);
    EligibleListIsRepaired(s, cs, clock);
    forall id <- s.orders ensures id in CandidateIds(cs) <==> Pending(s.orders[id]) && Repairable(s.orders[id]) {
      CandidateIdMeans(s, rows, id);
    }
  }

  lemma CandidateIdMeans(s: Store, rows: seq<JobOrder>, id: string)
    requires Valid(s) && Loaded(rows, s) && id in s.orders
    ensures id in CandidateIds(CandidatesOf(rows)) <==> Pending(s.orders[id]) && Repairable(s.orders[id])
  {
    CandidateIdsExactly(rows);
    AssessExactly(s.orders[id]);
  }

  /** So the next plan finds nothing to repair and skips what this one skipped. */
  lemma NextPlanIsEmpty(s: Store, rows: seq<JobOrder>, clock: nat -> int, next: seq<JobOrder>)
    requires Valid(s) && Loaded(rows, s) && Loaded(next, TransactAll(s, CandidatesOf(rows), clock))
    ensures CandidatesOf(next) == []
    ensures forall skip :: skip in SkipsOf(next) <==> skip in SkipsOf(rows)
  {
    FreshPlanIsRepaired(s, rows, clock);
    var now := TransactAll(s, CandidatesOf(rows), clock);
    forall j ensures j in next <==> j in rows && Assess(j).Leave? {
      LeftOverExactly(s, now, j);
    }
    NoCandidates(next);
    SameSkips(rows, next);
  }

  lemma LeftOverExactly(s: Store, now: Store, j: JobOrder)
    requires Valid(s) && now.orders.Keys == s.orders.Keys
    requires forall id <- s.orders ::
               if Pending(s.orders[id]) && Repairable(s.orders[id])
               then Finished(s.orders[id], now.orders[id])
               else now.orders[id] == s.orders[id]
    ensures j.id in now.orders && now.orders[j.id] == j && Pending(j) <==>
            j.id in s.orders && s.orders[j.id] == j && Pending(j) && Assess(j).Leave?
  {
    if j.id in s.orders {
      AssessExactly(s.orders[j.id]);
    }
  }

  lemma SameSkips(rows: seq<JobOrder>, next: seq<JobOrder>)
    requires forall j :: j in next <==> j in rows && Assess(j).Leave?
    ensures forall skip :: skip in SkipsOf(next) <==> skip in SkipsOf(rows)
  {
    EveryRowIsPlanned(rows);
    EveryRowIsPlanned(next);
  }

  lemma {:induction false} NoCandidates(rows: seq<JobOrder>)
    requires forall j <- rows :: Assess(j).Leave?
    ensures CandidatesOf(rows) == []
  {
    if rows != [] {
      NoCandidates(rows[..|rows| - 1]);
      assert rows[|rows| - 1] in rows;
    }
  }

  // ---------------------------------------------------------------------------
  // What the second check does not repeat
  // ---------------------------------------------------------------------------

  /**
   The executor looks again at the status, the completion time and the stages, not at the
   quantities or the quality batches: an order that no longer meets them is still repaired.
   */
  lemma ChangedQuantityIsStillRepaired(s: Store, j: JobOrder, prepared: int, now: int)
    requires Valid(s) && j.id in s.orders && s.orders[j.id] == j && Pending(j)
    requires Assess(j).Repair? && prepared != j.prepared
    ensures var changed := j.(prepared := prepared);
            && !Repairable(changed)
            && Transact(Store(s.orders[j.id := changed], s.audit), Assess(j).candidate, now).repaired
  {
    AssessExactly(j);
    RepairableIsEligible(j);
    var changed := j.(prepared := prepared);
    RepairIsWholeOrNothing(Store(s.orders[j.id := changed], s.audit), Assess(j).candidate, now);
  }

  /**
   Exactly when a repair is justified at the time it is made: of the planner's conditions
   only those on quantities and quality have to be looked at again.
   */
  lemma JustifiedExactly(c: Candidate, later: Store, now: int)
    requires Valid(later) && c.id in later.orders
    requires var k := later.orders[c.id].stages; k != [] && k[|k| - 1].id == c.finalStage
    requires Transact(later, c, now).repaired
    ensures var j := later.orders[c.id];
            Repairable(j) <==>
              && FindFinal(j.activities).Some? && j.prepared == Sum(j.lines) > 0
              && QualityResolved(j, FindFinal(j.activities).value.id)
  {
    RepairIsWholeOrNothing(later, c, now);
    var j := later.orders[c.id];
    var i := EligibleMeans(j, c.finalStage);
    assert DistinctStages(j.stages) && i == |j.stages| - 1;
  }
}
