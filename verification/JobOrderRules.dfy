/**
 The completion repair in terms of the rows alone: why an order is skipped, when a candidate
 is repaired (apps/api/src/cli/job-order-completion-reconciliation.ts:102-265).
 */
module JobOrderRules {
  import opened Prelude
  import opened JobOrderRepair

  /** The activity that covers the whole prepared quantity by batches. */
  predicate FinalCoverage(a: Activity) {
    && a.status == "ACTIVE" && a.activityType == "QUALITY"
    && a.mode == Some("IN_PROCESS") && a.multiplicity == Some("BATCHED") && a.coverage == Some("PREPARED_QUANTITY")
    && a.form.Some? && a.form.value.activityType == "INSPECTION" && a.form.value.scope == "JOB_ORDER"
  }

  /** `n` is the position of the first such activity. */
  predicate FirstFinal(j: JobOrder, n: nat) {
    n < |j.activities| && FinalCoverage(j.activities[n]) && forall m | 0 <= m < n :: !FinalCoverage(j.activities[m])
  }

  lemma {:induction false} FindFinalExactly(activities: seq<Activity>) returns (n: nat)
    ensures FindFinal(activities).Some? ==>
              n < |activities| && FindFinal(activities).value == activities[n] && FinalCoverage(activities[n])
    ensures FindFinal(activities).None? ==> n == |activities|
    ensures forall m | 0 <= m < n :: !FinalCoverage(activities[m])
  {
    if activities == [] || IsFinal(activities[0]) {
      n := 0;
    } else {
      var k := FindFinalExactly(activities[1..]);
      n := k + 1;
      assert forall m | 1 <= m < n :: activities[m] == activities[1..][m - 1];
    }
  }

  /** The quantity of the activity's batches that are not cancelled. */
  function Covered(batches: seq<Batch>, activity: string): int {
    if batches == [] then 0
    else
      var b := batches[|batches| - 1];
      Covered(batches[..|batches| - 1], activity)
      + if b.activity == activity && b.disposition != Cancelled then b.quantity else 0
  }

  lemma {:induction false} CoveredExactly(batches: seq<Batch>, activity: string)
    ensures Sum(Quantities(Physical(batches, activity))) == Covered(batches, activity)
  {
    if batches != [] {
      var before, b := batches[..|batches| - 1], batches[|batches| - 1];
      CoveredExactly(before, activity);
      var kept := Physical(before, activity);
      if b.activity == activity && b.disposition != Cancelled {
        assert Quantities(kept + [b]) == Quantities(kept) + [b.quantity];
        assert Quantities(Physical(batches, activity))[..|kept|] == Quantities(kept);
      } else {
        assert Physical(batches, activity) == kept;
      }
    }
  }

  /** The order's total. */
  function Ordered(lines: seq<int>): int {
    if lines == [] then 0 else lines[0] + Ordered(lines[1..])
  }

  lemma {:induction false} OrderedAppends(lines: seq<int>, x: int)
    ensures Ordered(lines + [x]) == Ordered(lines) + x
  {
    if lines != [] {
      assert (lines + [x])[1..] == lines[1..] + [x];
      OrderedAppends(lines[1..], x);
    } else {
      assert [] + [x] == [x];
    }
  }

  lemma {:induction false} OrderedExactly(lines: seq<int>)
    ensures Sum(lines) == Ordered(lines)
  {
    if lines != [] {
      var before, x := lines[..|lines| - 1], lines[|lines| - 1];
      OrderedExactly(before);
      OrderedAppends(before, x);
      assert lines == before + [x];
    }
  }

  /** What is wrong with a row, for each reason to skip it. */
  predicate Fault(x: Reason, j: JobOrder) {
    match x
    case NoFinalActivity => forall m | 0 <= m < |j.activities| :: !FinalCoverage(j.activities[m])
    case PreparedMismatch => Ordered(j.lines) <= 0 || j.prepared != Ordered(j.lines)
    case QualityUnresolved =>
      exists n | 0 <= n < |j.activities| :: FirstFinal(j, n) && Unresolved(j, j.activities[n].id)
    case FinalStageNotSolelyOpen =>
      || j.stages == [] || j.stages[|j.stages| - 1].status != InProgress
      || exists m | 0 <= m < |j.stages| - 1 :: j.stages[m].status != Completed
  }

  predicate Unresolved(j: JobOrder, activity: string) {
    || Covered(j.batches, activity) != j.prepared
    || (forall m | 0 <= m < |j.batches| :: j.batches[m].activity == activity ==> j.batches[m].disposition == Cancelled)
    || exists m | 0 <= m < |j.batches| ::
         j.batches[m].activity == activity && j.batches[m].disposition in {Draft, AwaitingReinspection}
  }

  function Rank(x: Reason): nat {
    match x
    case NoFinalActivity => 0
    case PreparedMismatch => 1
    case QualityUnresolved => 2
    case FinalStageNotSolelyOpen => 3
  }

  lemma UnresolvedExactly(j: JobOrder, activity: string)
    ensures Unresolved(j, activity) <==>
              var batches := Physical(j.batches, activity);
              || batches == [] || Sum(Quantities(batches)) != j.prepared
              || exists b <- batches :: b.disposition !in {Released, PermanentlyRejected}
  {
    PhysicalExactly(j.batches, activity);
    CoveredExactly(j.batches, activity);
    var batches := Physical(j.batches, activity);
    assert batches == [] || batches[0] in batches;
    assert forall m | 0 <= m < |j.batches| :: j.batches[m] in j.batches;
    if b :| b in batches && b.disposition !in {Released, PermanentlyRejected} {
      var m :| 0 <= m < |j.batches| && j.batches[m] == b;
    }
    if batches != [] {
      var m :| 0 <= m < |j.batches| && j.batches[m] == batches[0];
    }
  }

  lemma StagesExactly(j: JobOrder)
    requires DistinctStages(j.stages)
    ensures Fault(FinalStageNotSolelyOpen, j) <==> !OnlyLastOpen(j.stages)
  {
  }

  /** A row is skipped for the first thing that is wrong with it, and is a candidate exactly when nothing is. */
  lemma SkippedForFirstFault(j: JobOrder)
    requires DistinctStages(j.stages)
    ensures match Assess(j)
            case Leave(x) => Fault(x, j) && forall y | Rank(y) < Rank(x) :: !Fault(y, j)
            case Repair(_) => forall x :: !Fault(x, j)
  {
    var n := FindFinalExactly(j.activities);
    OrderedExactly(j.lines);
    StagesExactly(j);
    if j.stages != [] { SoleOpenStage(j.stages); }
    if FindFinal(j.activities).Some? {
      UnresolvedExactly(j, j.activities[n].id);
      QualityFault(j, n);
    }
  }

  lemma QualityFault(j: JobOrder, n: nat)
    requires FirstFinal(j, n)
    ensures Fault(QualityUnresolved, j) <==> Unresolved(j, j.activities[n].id)
  {
    assert forall m :: FirstFinal(j, m) ==> m == n;
  }

  /** The positions of the skips for a reason. */
  function For(skipped: seq<Skip>, reason: Reason): set<nat> {
    set n: nat | n < |skipped| && skipped[n].reason == reason
  }

  lemma ForOneMore(skipped: seq<Skip>, last: Skip, reason: Reason)
    ensures For(skipped + [last], reason) == For(skipped, reason) + if last.reason == reason then {|skipped|} else {}
  {
    var all := skipped + [last];
    assert forall n | 0 <= n < |skipped| :: all[n] == skipped[n];
    assert all[|skipped|] == last;
  }

  /** The counter of a reason counts the skips for it. */
  lemma {:induction false} CountExactly(skipped: seq<Skip>, reason: Reason)
    ensures Count(skipped, reason) == |For(skipped, reason)|
  {
    if skipped != [] {
      var m := |skipped| - 1;
      CountExactly(skipped[..m], reason);
      ForOneMore(skipped[..m], skipped[m], reason);
      assert skipped == skipped[..m] + [skipped[m]];
    }
  }

  /** The order is pending, the named stage is in progress, and every other one is completed. */
  predicate Due(s: Store, c: Candidate) {
    && c.id in s.orders
    && var j := s.orders[c.id];
       && j.status == ProductionComplete && j.completedAt == None
       && (exists m | 0 <= m < |j.stages| :: j.stages[m].id == c.finalStage && j.stages[m].status == InProgress)
       && (forall m | 0 <= m < |j.stages| :: j.stages[m].id != c.finalStage ==> j.stages[m].status == Completed)
  }

  lemma {:induction false} StageFound(stages: seq<Stage>, m: nat)
    requires DistinctStages(stages) && m < |stages|
    ensures FindStage(stages, stages[m].id) == Some(stages[m])
  {
    if m > 0 {
      assert stages[1..][m - 1] == stages[m];
      assert forall i, j | 0 <= i < j < |stages[1..]| ::
          stages[1..][i] == stages[i + 1] && stages[1..][j] == stages[j + 1];
      StageFound(stages[1..], m - 1);
    }
  }

  lemma DueExactly(s: Store, c: Candidate)
    requires Valid(s)
    ensures Repairs(s, c) <==> Due(s, c)
  {
    if c.id in s.orders {
      var j := s.orders[c.id];
      assert forall m | 0 <= m < |j.stages| :: j.stages[m] in j.stages;
      if Due(s, c) {
        var m :| 0 <= m < |j.stages| && j.stages[m].id == c.finalStage && j.stages[m].status == InProgress;
        StageFound(j.stages, m);
        forall x <- j.stages ensures x.id == c.finalStage || x.status == Completed {
          var k :| 0 <= k < |j.stages| && j.stages[k] == x;
        }
      }
      if Repairs(s, c) {
        var m :| 0 <= m < |j.stages| && j.stages[m] == FindStage(j.stages, c.finalStage).value;
      }
    }
  }

  /**
   A candidate is repaired exactly when it is due. Its order then has the time of the repair
   and all stages completed, two entries are added to the log, and nothing else changes.
   */
  lemma TransactExactly(s: Store, c: Candidate, now: int)
    requires Valid(s)
    ensures Transact(s, c, now).repaired <==> Due(s, c)
    ensures !Due(s, c) ==> Transact(s, c, now).store == s
    ensures Due(s, c) ==>
              var s' := Transact(s, c, now).store;
              && s'.orders.Keys == s.orders.Keys
              && (forall id <- s.orders :: id != c.id ==> s'.orders[id] == s.orders[id])
              && s'.orders[c.id] == s.orders[c.id].(completedAt := Some(now), stages := s'.orders[c.id].stages)
              && |s'.orders[c.id].stages| == |s.orders[c.id].stages|
              && (forall m | 0 <= m < |s.orders[c.id].stages| ::
                    s'.orders[c.id].stages[m] == Stage(s.orders[c.id].stages[m].id, Completed))
              && s'.audit == s.audit + [Entry(c.id, CompletionBackfilled), Entry(c.id, StageCompleted(c.finalStage))]
  {
    DueExactly(s, c);
    RepairIsWholeOrNothing(s, c, now);
  }

  /** The candidate at position `n` is due when its turn comes. */
  predicate DueAt(s: Store, cs: seq<Candidate>, clock: nat -> int, n: nat)
    requires n < |cs|
  {
    Due(TransactAll(s, cs[..n], clock), cs[n])
  }

  /** `from` lists, in order, the positions below `n` that are wanted. */
  ghost predicate Picks(wanted: nat -> bool, n: nat, from: seq<nat>) {
    && (forall k, l | 0 <= k < l < |from| :: from[k] < from[l])
    && (forall m <- from :: m < n && wanted(m))
    && (forall m: nat | m < n && wanted(m) :: m in from)
  }

  lemma PicksOneMore(wanted: nat -> bool, n: nat, from: seq<nat>)
    requires Picks(wanted, n, from)
    ensures Picks(wanted, n + 1, if wanted(n) then from + [n] else from)
  {
    assert forall k | 0 <= k < |from| :: from[k] in from;
  }

  lemma PicksSame(wanted: nat -> bool, other: nat -> bool, n: nat, from: seq<nat>)
    requires Picks(wanted, n, from) && forall m: nat | m < n :: wanted(m) == other(m)
    ensures Picks(other, n, from)
  {
  }

  /** Position `n` is a candidate whose transaction has this outcome. */
  function Outcomes(s: Store, cs: seq<Candidate>, clock: nat -> int, repaired: bool): nat -> bool {
    (n: nat) => n < |cs| && DueAt(s, cs, clock, n) == repaired
  }

  /** `ids` are those of the candidates that are wanted, in order; `from` lists their positions. */
  ghost predicate PickedIds(wanted: nat -> bool, cs: seq<Candidate>, ids: seq<string>, from: seq<nat>) {
    Picks(wanted, |cs|, from) && Names(cs, ids, from)
  }

  predicate Names(cs: seq<Candidate>, ids: seq<string>, from: seq<nat>) {
    |ids| == |from| && forall k | 0 <= k < |from| :: from[k] < |cs| && ids[k] == cs[from[k]].id
  }

  lemma OneMorePicked(wanted: nat -> bool, cs: seq<Candidate>, ids: seq<string>, from: seq<nat>, c: Candidate)
    requires PickedIds(wanted, cs, ids, from)
    ensures if wanted(|cs|) then PickedIds(wanted, cs + [c], ids + [c.id], from + [|cs|])
            else PickedIds(wanted, cs + [c], ids, from)
  {
    PicksOneMore(wanted, |cs|, from);
    NamesOneMore(cs, ids, from, c);
  }

  lemma NamesOneMore(cs: seq<Candidate>, ids: seq<string>, from: seq<nat>, c: Candidate)
    requires Names(cs, ids, from)
    ensures Names(cs + [c], ids, from) && Names(cs + [c], ids + [c.id], from + [|cs|])
  {
    var all := cs + [c];
    assert forall m | 0 <= m < |cs| :: all[m] == cs[m];
    assert all[|cs|] == c;
  }

  lemma SamePicked(wanted: nat -> bool, other: nat -> bool, cs: seq<Candidate>, ids: seq<string>, from: seq<nat>)
    requires PickedIds(wanted, cs, ids, from) && forall m: nat | m < |cs| :: wanted(m) == other(m)
    ensures PickedIds(other, cs, ids, from)
  {
    PicksSame(wanted, other, |cs|, from);
  }

  /** `ids` are those of the candidates whose transaction had this outcome, in order. */
  ghost predicate ByOutcome(
    s: Store, cs: seq<Candidate>, clock: nat -> int, repaired: bool, ids: seq<string>, from: seq<nat>)
  {
    PickedIds(Outcomes(s, cs, clock, repaired), cs, ids, from)
  }

  lemma SameOutcomes(s: Store, cs: seq<Candidate>, clock: nat -> int, repaired: bool, k: nat)
    requires k <= |cs|
    ensures forall n: nat | n < k :: Outcomes(s, cs[..k], clock, repaired)(n) == Outcomes(s, cs, clock, repaired)(n)
  {
    forall n: nat | n < k ensures DueAt(s, cs[..k], clock, n) == DueAt(s, cs, clock, n) {
      assert cs[..k][..n] == cs[..n];
    }
  }

  lemma OneMoreOutcome(
    s: Store, cs: seq<Candidate>, clock: nat -> int, repaired: bool, ids: seq<string>, from: seq<nat>, n: nat)
    requires n + 1 == |cs| && ByOutcome(s, cs[..n], clock, repaired, ids, from)
    ensures if Outcomes(s, cs, clock, repaired)(n)
            then ByOutcome(s, cs, clock, repaired, ids + [cs[n].id], from + [n])
            else ByOutcome(s, cs, clock, repaired, ids, from)
  {
    var wanted := Outcomes(s, cs, clock, repaired);
    SameOutcomes(s, cs, clock, repaired, n);
    SamePicked(Outcomes(s, cs[..n], clock, repaired), wanted, cs[..n], ids, from);
    OneMorePicked(wanted, cs[..n], ids, from, cs[n]);
    assert cs == cs[..n] + [cs[n]];
  }

  lemma OutcomeAt(s: Store, cs: seq<Candidate>, clock: nat -> int, repaired: bool, n: nat)
    requires Valid(s) && n < |cs|
    ensures Outcomes(s, cs, clock, repaired)(n) <==>
              Transact(TransactAll(s, cs[..n], clock), cs[n], clock(n)).repaired == repaired
  {
    CompletedOrdersStay(s, cs[..n], clock);
    TransactExactly(TransactAll(s, cs[..n], clock), cs[n], clock(n));
  }

  /**
   The ids reported as repaired, and those reported as stale, are in order those of the
   candidates that were due, and not due, when their turn came.
   */
  lemma {:induction false} OutcomesInOrder(s: Store, cs: seq<Candidate>, clock: nat -> int, repaired: bool)
    returns (from: seq<nat>)
    requires Valid(s)
    ensures ByOutcome(s, cs, clock, repaired, IdsWith(s, cs, clock, repaired), from)
  {
    if cs == [] {
      from := [];
    } else {
      var n := |cs| - 1;
      from := OutcomesInOrder(s, cs[..n], clock, repaired);
      OutcomeAt(s, cs, clock, repaired, n);
      OneMoreOutcome(s, cs, clock, repaired, IdsWith(s, cs[..n], clock, repaired), from, n);
      from := if Outcomes(s, cs, clock, repaired)(n) then from + [n] else from;
    }
  }
}
