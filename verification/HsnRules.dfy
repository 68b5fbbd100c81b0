/**
 The HSN backfill in terms of the styles' own fields (apps/api/src/cli/hsn-master-backfill.ts:51-151).
 */
module HsnRules {
  import opened Prelude
  import opened SourceText
  import opened HsnBackfill

  /** The row has this code: eight digits, whatever white space is around them. */
  predicate HasCode(r: Row, code: string) {
    && r.code.Some? && Trim(r.code.value) == code && |code| == 8
    && forall n | 0 <= n < 8 :: '0' <= code[n] <= '9'
  }

  ghost predicate Usable(r: Row) {
    exists code: string :: HasCode(r, code)
  }

  lemma HasCodeExactly(r: Row, code: string)
    ensures Carries(r, code) <==> HasCode(r, code)
    ensures Linkable(r) <==> Usable(r)
  {
    var t := Trimmed(r.code);
    if Linkable(r) {
      assert forall n | 0 <= n < 8 :: t[n] in t;
      assert HasCode(r, t);
    }
    forall c: string | HasCode(r, c) ensures Linkable(r) && c == t {
      forall x <- t ensures IsDigit(x) {
        var n :| 0 <= n < |t| && t[n] == x;
      }
    }
  }

  /** The code is blank: missing, or white space only. */
  predicate NoCode(r: Row) {
    r.code.None? || Trim(r.code.value) == ""
  }

  ghost predicate Increasing(from: seq<nat>) {
    forall k, l | 0 <= k < l < |from| :: from[k] < from[l]
  }

  /** `from` lists the positions of the rows without a usable code in order; each is skipped for what its code is. */
  ghost predicate SkipsUnusable(rows: seq<Row>, skipped: seq<Skipped>, from: seq<nat>) {
    && |skipped| == |from| && Increasing(from)
    && (forall n <- from :: n < |rows| && !Usable(rows[n]))
    && (forall n | 0 <= n < |rows| && !Usable(rows[n]) :: n in from)
    && (forall k | 0 <= k < |from| ::
          && from[k] < |rows|
          && var r := rows[from[k]];
             skipped[k] == Skipped(r.id, r.number, r.code, if NoCode(r) then BlankCode else InvalidFormat))
  }

  lemma OneMoreSkipped(rows: seq<Row>, skipped: seq<Skipped>, from: seq<nat>, r: Row)
    requires SkipsUnusable(rows, skipped, from)
    ensures Linkable(r) ==> SkipsUnusable(rows + [r], skipped, from)
    ensures !Linkable(r) ==>
              SkipsUnusable(rows + [r],
                            skipped + [Skipped(r.id, r.number, r.code, if NoCode(r) then BlankCode else InvalidFormat)],
                            from + [|rows|])
  {
    HasCodeExactly(r, "");
    var all := rows + [r];
    assert forall n | 0 <= n < |rows| :: all[n] == rows[n];
    assert forall k | 0 <= k < |from| :: from[k] in from && all[from[k]] == rows[from[k]];
  }

  /** Skipped are, in order, the rows without eight digits, as blank or as ill-formed. */
  lemma {:induction false} SkippedExactly(rows: seq<Row>) returns (from: seq<nat>)
    ensures SkipsUnusable(rows, SkippedOf(rows), from)
  {
    if rows == [] {
      from := [];
    } else {
      var n := |rows| - 1;
      from := SkippedExactly(rows[..n]);
      OneMoreSkipped(rows[..n], SkippedOf(rows[..n]), from, rows[n]);
      assert rows == rows[..n] + [rows[n]];
      from := if Linkable(rows[n]) then from else from + [n];
    }
  }

  /** `from` lists the positions of the rows with the code in order, and the ids are theirs. */
  ghost predicate IdsOfCode(rows: seq<Row>, code: string, ids: seq<string>, from: seq<nat>) {
    && |ids| == |from| && Increasing(from)
    && (forall n <- from :: n < |rows| && HasCode(rows[n], code))
    && (forall n | 0 <= n < |rows| && HasCode(rows[n], code) :: n in from)
    && (forall k | 0 <= k < |from| :: from[k] < |rows| && ids[k] == rows[from[k]].id)
  }

  lemma OneMoreId(rows: seq<Row>, code: string, ids: seq<string>, from: seq<nat>, r: Row)
    requires IdsOfCode(rows, code, ids, from)
    ensures !HasCode(r, code) ==> IdsOfCode(rows + [r], code, ids, from)
    ensures HasCode(r, code) ==> IdsOfCode(rows + [r], code, ids + [r.id], from + [|rows|])
  {
    var all := rows + [r];
    assert forall n | 0 <= n < |rows| :: all[n] == rows[n];
    assert forall k | 0 <= k < |from| :: from[k] in from && all[from[k]] == rows[from[k]];
  }

  /** The ids planned for a code are, in order, those of the rows with that code. */
  lemma {:induction false} IdsExactly(rows: seq<Row>, code: string) returns (from: seq<nat>)
    ensures IdsOfCode(rows, code, IdsWith(rows, code), from)
  {
    if rows == [] {
      from := [];
    } else {
      var n := |rows| - 1;
      from := IdsExactly(rows[..n], code);
      OneMoreId(rows[..n], code, IdsWith(rows[..n], code), from, rows[n]);
      HasCodeExactly(rows[n], code);
      assert rows == rows[..n] + [rows[n]];
      from := if HasCode(rows[n], code) then from + [n] else from;
    }
  }

  /** Row `r` gives the code this description. */
  predicate Gives(r: Row, code: string, d: string) {
    HasCode(r, code) && r.description.Some? && Trim(r.description.value) == d && d != ""
  }

  lemma GivenExactly(rows: seq<Row>, code: string, d: string)
    ensures d in Given(rows, code) <==> exists r :: r in rows && Gives(r, code, d)
  {
    forall r | r in rows ensures HasCode(r, code) <==> Carries(r, code) {
      HasCodeExactly(r, code);
    }
    if r :| r in rows && Gives(r, code, d) {
      assert Carries(r, code);
    }
    if d in Given(rows, code) {
      var r :| r in rows && Carries(r, code) && Trimmed(r.description) != "" && Trimmed(r.description) == d;
      assert Gives(r, code, d);
    }
  }

  /** In text order `a` comes before `b`: at the first difference it has the smaller character, or ends. */
  predicate Before(a: string, b: string) {
    exists k | 0 <= k <= |a| :: k < |b| && a[..k] == b[..k] && (k == |a| || a[k] < b[k])
  }

  lemma {:induction false} LessExactly(a: string, b: string)
    ensures Less(a, b) <==> Before(a, b)
    decreases |a|
  {
    if a != "" && b != "" {
      LessExactly(a[1..], b[1..]);
      if Less(a, b) {
        if a[0] < b[0] {
          assert a[..0] == b[..0];
        } else {
          var k :| 0 <= k <= |a[1..]| && k < |b[1..]| && a[1..][..k] == b[1..][..k]
                   && (k == |a[1..]| || a[1..][k] < b[1..][k]);
          assert a[..k + 1] == [a[0]] + a[1..][..k] && b[..k + 1] == [b[0]] + b[1..][..k];
        }
      }
      if k :| 0 <= k <= |a| && k < |b| && a[..k] == b[..k] && (k == |a| || a[k] < b[k]) {
        if k > 0 {
          assert a[..k][0] == a[0] && b[..k][0] == b[0];
          assert a[1..][..k - 1] == a[..k][1..] && b[1..][..k - 1] == b[..k][1..];
        }
      }
    } else if b != "" {
      assert a[..0] == b[..0];
    }
  }

  /** What the rows make of one code: some row has it, the ids are its rows', the description is the only one given. */
  ghost predicate FromRows(p: Planned, rows: seq<Row>) {
    && (exists r :: r in rows && HasCode(r, p.code))
    && (exists from :: IdsOfCode(rows, p.code, p.ids, from))
    && (forall d :: p.description == Some(d) <==> OnlyGiven(rows, p.code, d))
  }

  ghost predicate OnlyGiven(rows: seq<Row>, code: string, d: string) {
    (exists r :: r in rows && Gives(r, code, d)) && forall e, r | r in rows && Gives(r, code, e) :: e == d
  }

  lemma PlannedExactly(rows: seq<Row>, code: string)
    requires code in Codes(rows)
    ensures FromRows(PlannedFor(rows, code), rows)
  {
    var r :| r in rows && Linkable(r) && Trimmed(r.code) == code;
    HasCodeExactly(r, code);
    var from := IdsExactly(rows, code);
    forall d ensures PlannedFor(rows, code).description == Some(d) <==> OnlyGiven(rows, code, d) {
      OneDescription(rows, code, d);
    }
  }

  /** What a plan says of each code, and of the rows without one, is what the rows say. */
  lemma PlanExactly(plan: Plan, rows: seq<Row>)
    requires Plans(plan, rows)
    ensures forall p <- plan.hsns :: FromRows(p, rows)
    ensures forall k, l | 0 <= k < l < |plan.hsns| :: Before(plan.hsns[k].code, plan.hsns[l].code)
    ensures plan.total == |rows| && exists from :: SkipsUnusable(rows, plan.skipped, from)
  {
    var skips := SkippedExactly(rows);
    forall p <- plan.hsns ensures FromRows(p, rows) {
      var k :| 0 <= k < |plan.hsns| && plan.hsns[k] == p;
      assert CodesOf(plan.hsns)[k] in CodesOf(plan.hsns);
      PlannedExactly(rows, p.code);
    }
    forall k, l | 0 <= k < l < |plan.hsns| ensures Before(plan.hsns[k].code, plan.hsns[l].code) {
      assert Less(CodesOf(plan.hsns)[k], CodesOf(plan.hsns)[l]);
      LessExactly(plan.hsns[k].code, plan.hsns[l].code);
    }
  }

  lemma OneDescription(rows: seq<Row>, code: string, d: string)
    ensures PlannedFor(rows, code).description == Some(d) <==> OnlyGiven(rows, code, d)
  {
    DescriptionExactly(rows, code, d);
    GivenExactly(rows, code, d);
    if Given(rows, code) == {d} {
      forall e, r | r in rows && Gives(r, code, e) ensures e == d {
        GivenExactly(rows, code, e);
        assert e in Given(rows, code);
      }
    }
    if OnlyGiven(rows, code, d) {
      forall e ensures e in Given(rows, code) <==> e == d {
        GivenExactly(rows, code, e);
      }
    }
  }

  /** Every code a row has is planned. */
  lemma EveryCodeIsPlanned(plan: Plan, rows: seq<Row>, r: Row, code: string)
    requires Plans(plan, rows) && r in rows && HasCode(r, code)
    ensures exists k | 0 <= k < |plan.hsns| :: plan.hsns[k].code == code
  {
    HasCodeExactly(r, code);
    assert Trimmed(r.code) in Codes(rows) && code in CodesOf(plan.hsns);
    var k :| 0 <= k < |plan.hsns| && CodesOf(plan.hsns)[k] == code;
    assert plan.hsns[k].code == code;
  }

  // ---------------------------------------------------------------------------
  // Execution
  // ---------------------------------------------------------------------------

  /** A code that was not there is created with the description of its first entry in the plan. */
  lemma {:induction false} CreatedExactly(t: Tables, plan: seq<Planned>, k: nat)
    requires k < |plan| && plan[k].code !in t.hsns && forall m | 0 <= m < k :: plan[m].code != plan[k].code
    ensures plan[k].code in ApplyAll(t, plan).hsns
    ensures ApplyAll(t, plan).hsns[plan[k].code].description == plan[k].description
  {
    var n := |plan| - 1;
    if k == n {
      NeverEdits(t, plan[..n]);
      assert forall c <- CodesOf(plan[..n]) :: c != plan[k].code;
    } else {
      CreatedExactly(t, plan[..n], k);
    }
  }

  /** The style has no HSN yet and the planned code is its own. */
  predicate Due(s: Style, code: string) {
    s.hsn == None && HasCode(s.row, code)
  }

  /** A fresh run gives every style that is due the HSN of its code, and no other style any. */
  lemma FreshRunExactly(t: Tables, plan: Plan, i: nat)
    requires HsnBackfill.Valid(t) && Plans(plan, Load(t.styles)) && i < |t.styles|
    ensures var now, s := ApplyAll(t, plan.hsns), t.styles[i];
            && |now.styles| == |t.styles| && now.styles[i].row == s.row
            && (forall code | Due(s, code) :: code in now.hsns && now.styles[i].hsn == Some(now.hsns[code].id))
            && ((forall code :: !Due(s, code)) ==> now.styles[i].hsn == s.hsn)
  {
    var s := t.styles[i];
    FreshRunLinksExactly(t, plan, i);
    HasCodeExactly(s.row, Trimmed(s.row.code));
    forall code | Due(s, code) ensures code == Trimmed(s.row.code) && Linkable(s.row) {
      HasCodeExactly(s.row, code);
    }
    if s.hsn == None && Linkable(s.row) {
      assert Due(s, Trimmed(s.row.code)) by { HasCodeExactly(s.row, Trimmed(s.row.code)); }
    }
  }
}
