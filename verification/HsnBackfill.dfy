/**
 Building the HSN master out of the codes styles already carry
 (apps/api/src/cli/hsn-master-backfill.ts:51-151).
 */
module HsnBackfill {
  import opened Prelude
  import opened SourceText

  datatype Row = Row(id: string, number: string, code: Option<string>, description: Option<string>)

  datatype Reason = BlankCode | InvalidFormat

  datatype Skipped = Skipped(id: string, number: string, code: Option<string>, reason: Reason)

  datatype Planned = Planned(code: string, description: Option<string>, ids: seq<string>, conflicting: seq<string>)

  datatype Plan = Plan(total: nat, hsns: seq<Planned>, toLink: nat, skipped: seq<Skipped>)

  function Trimmed(text: Option<string>): string {
    if text.Some? then Trim(text.value) else ""
  }

  predicate Linkable(r: Row) {
    |Trimmed(r.code)| == 8 && AllDigits(Trimmed(r.code))
  }

  /** The rows that carry this code. */
  predicate Carries(r: Row, code: string) {
    Linkable(r) && Trimmed(r.code) == code
  }

  function Codes(rows: seq<Row>): set<string> {
    set r <- rows | Linkable(r) :: Trimmed(r.code)
  }

  /** The ids of the rows with a code, in order. */
  function IdsWith(rows: seq<Row>, code: string): seq<string> {
    if rows == [] then []
    else
      var last := rows[|rows| - 1];
      IdsWith(rows[..|rows| - 1], code) + if Carries(last, code) then [last.id] else []
  }

  /** The distinct descriptions given with a code, in the order they first appear. */
  function DescriptionsOf(rows: seq<Row>, code: string): seq<string> {
    if rows == [] then []
    else
      var last, before := rows[|rows| - 1], DescriptionsOf(rows[..|rows| - 1], code);
      var d := Trimmed(last.description);
      if Carries(last, code) && d != "" && d !in before then before + [d] else before
  }

  function SkippedOf(rows: seq<Row>): seq<Skipped> {
    if rows == [] then []
    else
      var last := rows[|rows| - 1];
      SkippedOf(rows[..|rows| - 1]) + if Linkable(last) then [] else
        [Skipped(last.id, last.number, last.code, if Trimmed(last.code) == "" then BlankCode else InvalidFormat)]
  }

  /** What is collected for one code. */
  datatype Entry = Entry(ids: seq<string>, descriptions: seq<string>)

  function PlannedFrom(code: string, entry: Entry): Planned {
    Planned(
      code,
      if |entry.descriptions| == 1 then Some(entry.descriptions[0]) else None,
      entry.ids,
      if |entry.descriptions| > 1 then entry.descriptions else [])
  }

  function PlannedFor(rows: seq<Row>, code: string): Planned {
    PlannedFrom(code, Entry(IdsWith(rows, code), DescriptionsOf(rows, code)))
  }

  /** The text order in which the plan lists its codes. */
  predicate Less(a: string, b: string) {
    b != "" && (a == "" || a[0] < b[0] || (a[0] == b[0] && Less(a[1..], b[1..])))
  }

  lemma {:induction false} LessIsStrictOrder(a: string, b: string, c: string)
    ensures !Less(a, a)
    ensures Less(a, b) && Less(b, c) ==> Less(a, c)
    ensures Less(a, b) || a == b || Less(b, a)
    decreases |a|
  {
    if a != "" && b != "" {
      LessIsStrictOrder(a[1..], b[1..], if c == "" then c else c[1..]);
      if a[0] == b[0] && a[1..] == b[1..] {
        assert a == [a[0]] + a[1..] && b == [b[0]] + b[1..];
      }
    } else if a != "" {
      LessIsStrictOrder(a[1..], b, c);
    }
  }

  predicate Ascending(codes: seq<string>) {
    forall i, j | 0 <= i < j < |codes| :: Less(codes[i], codes[j])
  }

  function InsertCode(codes: seq<string>, code: string): (r: seq<string>)
    requires Ascending(codes) && code !in codes
    ensures Ascending(r) && |r| == |codes| + 1
    ensures forall c :: c in r <==> c in codes || c == code
  {
    if codes == [] then [code]
    else if Less(code, codes[0]) then
      assert forall j | 0 < j < |codes| :: Less(code, codes[j]) by {
        forall j | 0 < j < |codes| ensures Less(code, codes[j]) { LessIsStrictOrder(code, codes[0], codes[j]); }
      }
      [code] + codes
    else
      assert codes[0] != code && Less(codes[0], code) by { LessIsStrictOrder(code, codes[0], code); }
      var rest := InsertCode(codes[1..], code);
      assert forall c <- rest :: Less(codes[0], c) by {
        forall c <- rest ensures Less(codes[0], c) {
          if c != code {
            var j :| 1 <= j < |codes| && codes[j] == c;
          }
        }
      }
      [codes[0]] + rest
  }

  /** An ascending list is determined by its elements. */
  lemma {:induction false} AscendingIsUnique(a: seq<string>, b: seq<string>)
    requires Ascending(a) && Ascending(b) && forall c :: c in a <==> c in b
    ensures a == b
  {
    assert (a != [] ==> a[0] in b) && (b != [] ==> b[0] in a);
    if a != [] && b != [] {
      LessIsStrictOrder(a[0], b[0], a[0]);
      LessIsStrictOrder(b[0], a[0], b[0]);
      assert a[0] == b[0];
      forall c ensures c in a[1..] <==> c in b[1..] {
        LessIsStrictOrder(a[0], a[0], a[0]);
        assert c in a[1..] <==> c in a && c != a[0];
        assert c in b[1..] <==> c in b && c != b[0];
      }
      AscendingIsUnique(a[1..], b[1..]);
    }
  }

  function CodesOf(hsns: seq<Planned>): (codes: seq<string>)
    ensures |codes| == |hsns| && forall i | 0 <= i < |hsns| :: codes[i] == hsns[i].code
  {
    seq(|hsns|, i requires 0 <= i < |hsns| => hsns[i].code)
  }

  function TotalIds(hsns: seq<Planned>): nat {
    if hsns == [] then 0 else TotalIds(hsns[..|hsns| - 1]) + |hsns[|hsns| - 1].ids|
  }

  /** What a plan for these rows has to be. */
  ghost predicate Plans(plan: Plan, rows: seq<Row>) {
    && plan.total == |rows|
    && Ascending(CodesOf(plan.hsns))
    && (forall c :: c in CodesOf(plan.hsns) <==> c in Codes(rows))
    && (forall p <- plan.hsns :: p == PlannedFor(rows, p.code))
    && plan.toLink == TotalIds(plan.hsns)
    && plan.skipped == SkippedOf(rows)
  }

  lemma PlanIsUnique(rows: seq<Row>, a: Plan, b: Plan)
    requires Plans(a, rows) && Plans(b, rows)
    ensures a == b
  {
    AscendingIsUnique(CodesOf(a.hsns), CodesOf(b.hsns));
    forall i | 0 <= i < |a.hsns| ensures a.hsns[i] == b.hsns[i] {
      assert a.hsns[i] in a.hsns && b.hsns[i] in b.hsns;
      assert CodesOf(a.hsns)[i] == CodesOf(b.hsns)[i];
    }
    assert a.hsns == b.hsns;
  }

  // ---------------------------------------------------------------------------
  // Planning
  // ---------------------------------------------------------------------------

  ghost predicate Collected(byCode: map<string, Entry>, rows: seq<Row>) {
    && byCode.Keys == Codes(rows)
    && forall c <- byCode :: byCode[c] == Entry(IdsWith(rows, c), DescriptionsOf(rows, c))
  }

  lemma {:induction false} UnusedCode(rows: seq<Row>, code: string)
    ensures code !in Codes(rows) ==> IdsWith(rows, code) == [] && DescriptionsOf(rows, code) == []
  {
    if rows != [] {
      var last := rows[|rows| - 1];
      assert last in rows;
      UnusedCode(rows[..|rows| - 1], code);
    }
  }

  lemma OneMore(rows: seq<Row>, r: Row)
    ensures Codes(rows + [r]) == Codes(rows) + if Linkable(r) then {Trimmed(r.code)} else {}
    ensures forall c | !Carries(r, c) ::
              IdsWith(rows + [r], c) == IdsWith(rows, c) && DescriptionsOf(rows + [r], c) == DescriptionsOf(rows, c)
    ensures forall c | Carries(r, c) :: IdsWith(rows + [r], c) == IdsWith(rows, c) + [r.id]
    ensures forall c | Carries(r, c) ::
              var before, d := DescriptionsOf(rows, c), Trimmed(r.description);
              DescriptionsOf(rows + [r], c) == if d != "" && d !in before then before + [d] else before
    ensures SkippedOf(rows + [r]) == SkippedOf(rows) + if Linkable(r) then [] else
              [Skipped(r.id, r.number, r.code, if Trimmed(r.code) == "" then BlankCode else InvalidFormat)]
  {
    assert (rows + [r])[..|rows|] == rows;
    forall c ensures c in Codes(rows + [r]) <==> c in Codes(rows) || Carries(r, c) {
      if Carries(r, c) { assert r in rows + [r]; }
      if c in Codes(rows) {
        var x :| x in rows && Linkable(x) && Trimmed(x.code) == c;
        assert x in rows + [r];
      }
    }
  }

  function EntryOf(byCode: map<string, Entry>, code: string): Entry {
    if code in byCode then byCode[code] else Entry([], [])
  }

  /** What one usable row adds to its group. */
  function Extended(entry: Entry, r: Row): Entry {
    var d := Trimmed(r.description);
    Entry(
      entry.ids + [r.id],
      if d != "" && d !in entry.descriptions then entry.descriptions + [d] else entry.descriptions)
  }

  lemma ExtendedIsCollected(byCode: map<string, Entry>, rows: seq<Row>, r: Row)
    requires Collected(byCode, rows) && Linkable(r)
    ensures var code := Trimmed(r.code);
            Extended(EntryOf(byCode, code), r) == Entry(IdsWith(rows + [r], code), DescriptionsOf(rows + [r], code))
  {
    UnusedCode(rows, Trimmed(r.code));
    OneMore(rows, r);
  }

  /** One turn of the first loop for a row with a usable code. */
  method Collect(byCode: map<string, Entry>, ghost rows: seq<Row>, r: Row) returns (now: map<string, Entry>)
    requires Collected(byCode, rows) && Linkable(r)
    ensures Collected(now, rows + [r])
  {
    ExtendedIsCollected(byCode, rows, r);
    OneMore(rows, r);
    var code := Trimmed(r.code);
    now := byCode[code := Extended(EntryOf(byCode, code), r)];
  }

  method SortCodes(codes: set<string>) returns (sorted: seq<string>)
    ensures Ascending(sorted) && forall c :: c in sorted <==> c in codes
  {
    sorted := [];
    var left := codes;
    while left != {}
      invariant left <= codes && Ascending(sorted)
      invariant forall c :: c in sorted <==> c in codes && c !in left
      decreases |left|
    {
      var c :| c in left;
      sorted := InsertCode(sorted, c);
      left := left - {c};
    }
  }

  /** The first loop: skipped rows in order, usable ones grouped by code. */
  method CollectRows(rows: seq<Row>) returns (skipped: seq<Skipped>, byCode: map<string, Entry>)
    ensures skipped == SkippedOf(rows) && Collected(byCode, rows)
  {
    skipped, byCode := [], map[];
    for n := 0 to |rows|
      invariant skipped == SkippedOf(rows[..n]) && Collected(byCode, rows[..n])
    {
      var r := rows[n];
      assert rows[..n + 1] == rows[..n] + [r];
      OneMore(rows[..n], r);
      if Trimmed(r.code) == "" {
        skipped := skipped + [Skipped(r.id, r.number, r.code, BlankCode)];
      } else if !Linkable(r) {
        skipped := skipped + [Skipped(r.id, r.number, r.code, InvalidFormat)];
      } else {
        byCode := Collect(byCode, rows[..n], r);
      }
    }
    assert rows[..|rows|] == rows;
  }

  /** The second loop: one planned HSN per group, by ascending code. */
  method ListGroups(byCode: map<string, Entry>) returns (hsns: seq<Planned>, toLink: nat)
    ensures Ascending(CodesOf(hsns)) && toLink == TotalIds(hsns)
    ensures forall c :: c in CodesOf(hsns) <==> c in byCode
    ensures forall p <- hsns :: p.code in byCode && p == PlannedFrom(p.code, byCode[p.code])
  {
    var sorted := SortCodes(byCode.Keys);
    hsns, toLink := [], 0;
    for n := 0 to |sorted|
      invariant CodesOf(hsns) == sorted[..n] && toLink == TotalIds(hsns)
      invariant forall p <- hsns :: p.code in byCode && p == PlannedFrom(p.code, byCode[p.code])
    {
      assert sorted[n] in sorted;
      var p := PlannedFrom(sorted[n], byCode[sorted[n]]);
      assert (hsns + [p])[..|hsns|] == hsns;
      hsns := hsns + [p];
      toLink := toLink + |p.ids|;
    }
  }

  lemma GroupsArePlanned(byCode: map<string, Entry>, rows: seq<Row>, hsns: seq<Planned>)
    requires Collected(byCode, rows)
    requires forall p <- hsns :: p.code in byCode && p == PlannedFrom(p.code, byCode[p.code])
    ensures forall p <- hsns :: p == PlannedFor(rows, p.code)
  {
  }

  /** planHsnMasterBackfill: both loops. */
  method PlanBackfill(rows: seq<Row>) returns (plan: Plan)
    ensures Plans(plan, rows)
  {
    var skipped, byCode := CollectRows(rows);
    var hsns, toLink := ListGroups(byCode);
    GroupsArePlanned(byCode, rows, hsns);
    plan := Plan(|rows|, hsns, toLink, skipped);
  }

  // ---------------------------------------------------------------------------
  // What a plan says about its rows
  // ---------------------------------------------------------------------------

  function Linkables(rows: seq<Row>): nat {
    if rows == [] then 0 else Linkables(rows[..|rows| - 1]) + if Linkable(rows[|rows| - 1]) then 1 else 0
  }

  function Sum(codes: seq<string>, rows: seq<Row>): nat {
    if codes == [] then 0
    else Sum(codes[..|codes| - 1], rows) + |IdsWith(rows, codes[|codes| - 1])|
  }

  lemma {:induction false} SumGrows(codes: seq<string>, rows: seq<Row>, r: Row)
    requires Ascending(codes)
    ensures Sum(codes, rows + [r]) == Sum(codes, rows) + if Linkable(r) && Trimmed(r.code) in codes then 1 else 0
  {
    if codes != [] {
      var last := codes[|codes| - 1];
      OneMore(rows, r);
      SumGrows(codes[..|codes| - 1], rows, r);
      assert last !in codes[..|codes| - 1] by {
        if last in codes[..|codes| - 1] {
          LessIsStrictOrder(last, last, last);
        }
      }
      assert codes == codes[..|codes| - 1] + [last];
    }
  }

  lemma {:induction false} SumIsLinkables(codes: seq<string>, rows: seq<Row>)
    requires Ascending(codes) && forall c <- Codes(rows) :: c in codes
    ensures Sum(codes, rows) == Linkables(rows) && Linkables(rows) + |SkippedOf(rows)| == |rows|
    decreases |rows|
  {
    if rows == [] {
      SumOfNothing(codes);
    } else {
      var before, last := rows[..|rows| - 1], rows[|rows| - 1];
      assert rows == before + [last];
      OneMore(before, last);
      SumIsLinkables(codes, before);
      SumGrows(codes, before, last);
    }
  }

  lemma {:induction false} SumOfNothing(codes: seq<string>)
    ensures Sum(codes, []) == 0
  {
    if codes != [] { SumOfNothing(codes[..|codes| - 1]); }
  }

  lemma {:induction false} TotalIsSum(hsns: seq<Planned>, rows: seq<Row>)
    requires forall p <- hsns :: p == PlannedFor(rows, p.code)
    ensures TotalIds(hsns) == Sum(CodesOf(hsns), rows)
  {
    if hsns != [] {
      TotalIsSum(hsns[..|hsns| - 1], rows);
      assert CodesOf(hsns)[..|hsns| - 1] == CodesOf(hsns[..|hsns| - 1]);
      assert hsns[|hsns| - 1] in hsns;
    }
  }

  /** Every row is planned for linking or skipped, none twice. */
  lemma EveryRowIsCounted(plan: Plan, rows: seq<Row>)
    requires Plans(plan, rows)
    ensures plan.toLink + |plan.skipped| == plan.total
  {
    TotalIsSum(plan.hsns, rows);
    SumIsLinkables(CodesOf(plan.hsns), rows);
  }

  /** The descriptions given with a code, as a set. */
  ghost function Given(rows: seq<Row>, code: string): set<string> {
    set r <- rows | Carries(r, code) && Trimmed(r.description) != "" :: Trimmed(r.description)
  }

  lemma GivenByOneMore(before: seq<Row>, last: Row, code: string)
    ensures var d := Trimmed(last.description);
            Given(before + [last], code) == Given(before, code) + if Carries(last, code) && d != "" then {d} else {}
  {
    var d := Trimmed(last.description);
    forall x ensures x in Given(before + [last], code) <==>
                     x in Given(before, code) || (x == d && Carries(last, code) && d != "") {
      if x in Given(before, code) {
        var r :| r in before && Carries(r, code) && Trimmed(r.description) != "" && Trimmed(r.description) == x;
        assert r in before + [last];
      }
      assert last in before + [last];
    }
  }

  /** The list holds exactly these descriptions, each once. */
  ghost predicate Lists(descriptions: seq<string>, given: set<string>) {
    (forall d :: d in descriptions <==> d in given) && |descriptions| == |given|
  }

  lemma ListsOneMore(descriptions: seq<string>, given: set<string>, d: string)
    requires Lists(descriptions, given)
    ensures Lists(if d in descriptions then descriptions else descriptions + [d], given + {d})
  {
    if d in descriptions {
      assert given + {d} == given;
    }
  }

  lemma {:induction false} DescriptionsAreGiven(rows: seq<Row>, code: string)
    ensures Lists(DescriptionsOf(rows, code), Given(rows, code))
  {
    if rows != [] {
      var before, last := rows[..|rows| - 1], rows[|rows| - 1];
      assert rows == before + [last];
      DescriptionsAreGiven(before, code);
      GivenByOneMore(before, last, code);
      ListsOneMore(DescriptionsOf(before, code), Given(before, code), Trimmed(last.description));
    }
  }

  /** A description is proposed exactly when one and only one is given; conflicts are listed otherwise. */
  lemma DescriptionExactly(rows: seq<Row>, code: string, d: string)
    ensures PlannedFor(rows, code).description == Some(d) <==> Given(rows, code) == {d}
    ensures PlannedFor(rows, code).conflicting != [] <==> |Given(rows, code)| > 1
    ensures forall x <- PlannedFor(rows, code).conflicting :: x in Given(rows, code)
  {
    DescriptionsAreGiven(rows, code);
    var descriptions := DescriptionsOf(rows, code);
    if |descriptions| == 1 {
      assert descriptions[0] in descriptions && forall x <- descriptions :: x == descriptions[0];
      assert Given(rows, code) == {descriptions[0]};
    }
  }

  // ---------------------------------------------------------------------------
  // Execution
  // ---------------------------------------------------------------------------

  datatype Hsn = Hsn(id: nat, description: Option<string>)

  datatype Style = Style(row: Row, hsn: Option<nat>)

  /** The two tables; styles are listed by id, and `nextId` stands for the id generator. */
  datatype Tables = Tables(hsns: map<string, Hsn>, styles: seq<Style>, nextId: nat)

  predicate Chosen(s: Style, ids: seq<string>) {
    s.hsn == None && s.row.id in ids
  }

  /** updateMany over the styles of a list that have no HSN. */
  function Link(styles: seq<Style>, ids: seq<string>, hsn: nat): (now: seq<Style>)
    ensures |now| == |styles|
    ensures forall i | 0 <= i < |styles| ::
              now[i] == if Chosen(styles[i], ids) then styles[i].(hsn := Some(hsn)) else styles[i]
  {
    seq(|styles|, i requires 0 <= i < |styles| =>
      if Chosen(styles[i], ids) then styles[i].(hsn := Some(hsn)) else styles[i])
  }

  function ChosenCount(styles: seq<Style>, ids: seq<string>): nat {
    if styles == [] then 0
    else ChosenCount(styles[..|styles| - 1], ids) + if Chosen(styles[|styles| - 1], ids) then 1 else 0
  }

  function HsnFor(t: Tables, p: Planned): Hsn {
    if p.code in t.hsns then t.hsns[p.code] else Hsn(t.nextId, p.description)
  }

  /** One transaction. */
  function Apply(t: Tables, p: Planned): Tables {
    var hsn := HsnFor(t, p);
    Tables(t.hsns[p.code := hsn], Link(t.styles, p.ids, hsn.id), if p.code in t.hsns then t.nextId else t.nextId + 1)
  }

  function ApplyAll(t: Tables, plan: seq<Planned>): Tables {
    if plan == [] then t else Apply(ApplyAll(t, plan[..|plan| - 1]), plan[|plan| - 1])
  }

  /** How many styles have no HSN. */
  function Unlinked(styles: seq<Style>): nat {
    if styles == [] then 0
    else Unlinked(styles[..|styles| - 1]) + if styles[|styles| - 1].hsn == None then 1 else 0
  }

  lemma {:induction false} LinkingLowersUnlinked(styles: seq<Style>, ids: seq<string>, hsn: nat)
    ensures Unlinked(Link(styles, ids, hsn)) + ChosenCount(styles, ids) == Unlinked(styles)
  {
    if styles != [] {
      LinkingLowersUnlinked(styles[..|styles| - 1], ids, hsn);
      assert Link(styles, ids, hsn)[..|styles| - 1] == Link(styles[..|styles| - 1], ids, hsn);
    }
  }

  class Backfill {
    var tables: Tables

    /** executeHsnMasterBackfill: one transaction per planned HSN. The counters are the change in the tables. */
    method Execute(plan: seq<Planned>) returns (created: nat, existed: nat, linked: nat)
      modifies this
      ensures tables == ApplyAll(old(tables), plan)
      ensures created + existed == |plan|
      ensures |tables.hsns.Keys| == |old(tables).hsns.Keys| + created
      ensures Unlinked(tables.styles) + linked == Unlinked(old(tables).styles)
    {
      created, existed, linked := 0, 0, 0;
      for n := 0 to |plan|
        invariant tables == ApplyAll(old(tables), plan[..n]) && created + existed == n
        invariant |tables.hsns.Keys| == |old(tables).hsns.Keys| + created
        invariant Unlinked(tables.styles) + linked == Unlinked(old(tables).styles)
      {
        var p := plan[n];
        assert plan[..n + 1][..n] == plan[..n];
        var hsn := HsnFor(tables, p);
        if p.code in tables.hsns {
          existed := existed + 1;
          assert tables.hsns[p.code := hsn].Keys == tables.hsns.Keys;
        } else {
          created := created + 1;
          assert tables.hsns[p.code := hsn].Keys == tables.hsns.Keys + {p.code};
        }
        linked := linked + ChosenCount(tables.styles, p.ids);
        LinkingLowersUnlinked(tables.styles, p.ids, hsn.id);
        tables := Apply(tables, p);
      }
      assert plan[..|plan|] == plan;
    }
  }

  /** What is there stays: HSNs are never edited, links never moved, rows never touched. */
  lemma {:induction false} NeverEdits(t: Tables, plan: seq<Planned>)
    ensures var now := ApplyAll(t, plan);
            && (forall c <- t.hsns :: c in now.hsns && now.hsns[c] == t.hsns[c])
            && (forall c <- now.hsns :: c in t.hsns || c in CodesOf(plan))
            && |now.styles| == |t.styles|
            && forall i | 0 <= i < |t.styles| ::
                 && now.styles[i].row == t.styles[i].row
                 && (t.styles[i].hsn.Some? ==> now.styles[i].hsn == t.styles[i].hsn)
  {
    if plan != [] {
      NeverEdits(t, plan[..|plan| - 1]);
      assert forall c <- CodesOf(plan[..|plan| - 1]) :: c in CodesOf(plan);
      assert CodesOf(plan)[|plan| - 1] == plan[|plan| - 1].code;
    }
  }

  /** The transaction has nothing left to do. */
  predicate Settled(t: Tables, p: Planned) {
    p.code in t.hsns && forall s <- t.styles :: !Chosen(s, p.ids)
  }

  lemma SettledIsNoOp(t: Tables, p: Planned)
    requires Settled(t, p)
    ensures Apply(t, p) == t
  {
    assert Link(t.styles, p.ids, t.hsns[p.code].id) == t.styles;
    assert t.hsns[p.code := t.hsns[p.code]] == t.hsns;
  }

  lemma ApplySettles(t: Tables, p: Planned, q: Planned)
    ensures Settled(Apply(t, p), p)
    ensures Settled(t, q) ==> Settled(Apply(t, p), q)
  {
    var hsn := HsnFor(t, p);
    var now := Link(t.styles, p.ids, hsn.id);
    forall s <- now ensures !Chosen(s, p.ids) && (Settled(t, q) ==> !Chosen(s, q.ids)) {
      var i :| 0 <= i < |now| && now[i] == s;
      assert t.styles[i] in t.styles;
    }
  }

  lemma {:induction false} AllSettled(t: Tables, plan: seq<Planned>)
    ensures forall p <- plan :: Settled(ApplyAll(t, plan), p)
  {
    if plan != [] {
      var before, last := plan[..|plan| - 1], plan[|plan| - 1];
      AllSettled(t, before);
      forall p <- plan ensures Settled(ApplyAll(t, plan), p) {
        ApplySettles(ApplyAll(t, before), last, p);
        assert p == last || p in before;
      }
    }
  }

  lemma {:induction false} SettledPlanIsNoOp(t: Tables, plan: seq<Planned>)
    requires forall p <- plan :: Settled(t, p)
    ensures ApplyAll(t, plan) == t
  {
    if plan != [] {
      SettledPlanIsNoOp(t, plan[..|plan| - 1]);
      SettledIsNoOp(t, plan[|plan| - 1]);
    }
  }

  /** Any plan, run a second time, changes nothing; so its counters of HSNs created and styles linked are zero. */
  lemma SecondRunDoesNothing(t: Tables, plan: seq<Planned>)
    ensures ApplyAll(ApplyAll(t, plan), plan) == ApplyAll(t, plan)
  {
    AllSettled(t, plan);
    SettledPlanIsNoOp(ApplyAll(t, plan), plan);
  }

  // ---------------------------------------------------------------------------
  // Planning from the tables, then executing
  // ---------------------------------------------------------------------------

  /** Style ids are unique, and so are HSN ids, all of them already generated. */
  predicate Valid(t: Tables) {
    && (forall i, j | 0 <= i < j < |t.styles| :: t.styles[i].row.id != t.styles[j].row.id)
    && (forall c <- t.hsns :: t.hsns[c].id < t.nextId)
    && (forall c, d | c in t.hsns && d in t.hsns && t.hsns[c].id == t.hsns[d].id :: c == d)
  }

  lemma {:induction false} ValidKept(t: Tables, plan: seq<Planned>)
    requires Valid(t)
    ensures Valid(ApplyAll(t, plan))
  {
    if plan != [] {
      ValidKept(t, plan[..|plan| - 1]);
    }
  }

  /** loadStyleHsnRows. */
  function Load(styles: seq<Style>): seq<Row> {
    if styles == [] then []
    else
      var last := styles[|styles| - 1];
      Load(styles[..|styles| - 1]) + if last.hsn == None then [last.row] else []
  }

  lemma {:induction false} LoadExactly(styles: seq<Style>)
    ensures forall r :: r in Load(styles) <==> Style(r, None) in styles
  {
    if styles != [] {
      LoadExactly(styles[..|styles| - 1]);
      assert styles == styles[..|styles| - 1] + [styles[|styles| - 1]];
    }
  }

  lemma {:induction false} IdsWithExactly(rows: seq<Row>, code: string)
    ensures forall id :: id in IdsWith(rows, code) <==> exists r :: r in rows && Carries(r, code) && r.id == id
  {
    if rows != [] {
      var before, last := rows[..|rows| - 1], rows[|rows| - 1];
      IdsWithExactly(before, code);
      assert rows == before + [last];
    }
  }

  /** A style named only with one code is linked to that code's HSN, as soon as it is named at all. */
  lemma {:induction false} LinkHistory(t: Tables, plan: seq<Planned>, i: nat, code: string)
    requires i < |t.styles| && t.styles[i].hsn == None
    requires forall p <- plan :: t.styles[i].row.id in p.ids ==> p.code == code
    ensures var now, id := ApplyAll(t, plan), t.styles[i].row.id;
            && |now.styles| == |t.styles| && now.styles[i].row == t.styles[i].row
            && (if exists p <- plan :: id in p.ids
                then code in now.hsns && now.styles[i].hsn == Some(now.hsns[code].id)
                else now.styles[i].hsn == None)
  {
    NeverEdits(t, plan);
    if plan != [] {
      var before, last := plan[..|plan| - 1], plan[|plan| - 1];
      assert plan == before + [last];
      LinkHistory(t, before, i, code);
      NeverEdits(t, before);
    }
  }

  lemma PlannedIds(t: Tables, plan: Plan, i: nat)
    requires Valid(t) && Plans(plan, Load(t.styles)) && i < |t.styles| && t.styles[i].hsn == None
    ensures var r := t.styles[i].row;
            && (forall p <- plan.hsns :: r.id in p.ids <==> Carries(r, p.code))
            && (Linkable(r) <==> exists p <- plan.hsns :: r.id in p.ids)
  {
    var r, rows := t.styles[i].row, Load(t.styles);
    LoadExactly(t.styles);
    assert Style(r, None) == t.styles[i];
    forall p <- plan.hsns ensures r.id in p.ids <==> Carries(r, p.code) {
      IdsWithExactly(rows, p.code);
      if r.id in p.ids {
        var x :| x in rows && Carries(x, p.code) && x.id == r.id;
        var j :| 0 <= j < |t.styles| && t.styles[j] == Style(x, None);
      }
    }
    if Linkable(r) {
      assert Trimmed(r.code) in Codes(rows);
      var k :| 0 <= k < |plan.hsns| && CodesOf(plan.hsns)[k] == Trimmed(r.code);
      assert plan.hsns[k] in plan.hsns;
    }
  }

  /** A fresh plan, executed, links every linkable style to the HSN of its own code and touches no other. */
  lemma FreshRunLinksExactly(t: Tables, plan: Plan, i: nat)
    requires Valid(t) && Plans(plan, Load(t.styles)) && i < |t.styles|
    ensures var now, s := ApplyAll(t, plan.hsns), t.styles[i];
            && |now.styles| == |t.styles| && now.styles[i].row == s.row
            && (if s.hsn == None && Linkable(s.row)
                then Trimmed(s.row.code) in now.hsns && now.styles[i].hsn == Some(now.hsns[Trimmed(s.row.code)].id)
                else now.styles[i].hsn == s.hsn)
  {
    NeverEdits(t, plan.hsns);
    if t.styles[i].hsn == None {
      PlannedIds(t, plan, i);
      LinkHistory(t, plan.hsns, i, Trimmed(t.styles[i].row.code));
    }
  }

  lemma {:induction false} OnlySkippedLeft(styles: seq<Style>, now: seq<Style>)
    requires |now| == |styles|
    requires forall i | 0 <= i < |styles| ::
               && now[i].row == styles[i].row
               && (now[i].hsn == None <==> styles[i].hsn == None && !Linkable(styles[i].row))
    ensures SkippedOf(Load(now)) == SkippedOf(Load(styles)) && Codes(Load(now)) == {}
    ensures |Load(now)| == |SkippedOf(Load(styles))|
  {
    if styles != [] {
      var n := |styles| - 1;
      OnlySkippedLeft(styles[..n], now[..n]);
      var row := styles[n].row;
      LoadAppends(styles, n);
      LoadAppends(now, n);
      OneMore(Load(styles[..n]), row);
      OneMore(Load(now[..n]), row);
      assert (Load(styles[..n]) + [row])[..|Load(styles[..n])|] == Load(styles[..n]);
      assert (Load(now[..n]) + [row])[..|Load(now[..n])|] == Load(now[..n]);
    }
  }

  lemma LoadAppends(styles: seq<Style>, n: nat)
    requires n + 1 == |styles|
    ensures Load(styles) == if styles[n].hsn == None then Load(styles[..n]) + [styles[n].row] else Load(styles[..n])
  {
  }

  /**
   One run converges: the next plan proposes nothing and lists the same skipped styles, which are
   all that is left.
   */
  lemma FreshRunConverges(t: Tables, plan: Plan, next: Plan)
    requires Valid(t) && Plans(plan, Load(t.styles))
    requires Plans(next, Load(ApplyAll(t, plan.hsns).styles))
    ensures next.hsns == [] && next.toLink == 0
    ensures next.skipped == plan.skipped && next.total == |plan.skipped|
  {
    var now := ApplyAll(t, plan.hsns);
    NeverEdits(t, plan.hsns);
    forall i | 0 <= i < |t.styles| ensures
        && now.styles[i].row == t.styles[i].row
        && (now.styles[i].hsn == None <==> t.styles[i].hsn == None && !Linkable(t.styles[i].row)) {
      FreshRunLinksExactly(t, plan, i);
    }
    OnlySkippedLeft(t.styles, now.styles);
    FirstCode(next.hsns);
  }

  lemma FirstCode(hsns: seq<Planned>)
    ensures hsns == [] || hsns[0].code in CodesOf(hsns)
  {
    if hsns != [] {
      assert CodesOf(hsns)[0] == hsns[0].code;
    }
  }
}
