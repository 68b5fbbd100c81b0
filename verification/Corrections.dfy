/**
 Reviewed corrections to one canonical row
 (apps/api/src/cli/master-source-normalization.ts:140-186).
 */
module Corrections {
  import opened Prelude
  import opened SourceText

  datatype Value = Words(words: string) | Number(number: real)

  type Row = map<string, Value>

  datatype Location = Location(digest: string, worksheet: string, row: int)

  datatype Correction = Correction(
    location: Location, sourceKey: string, field: string, previous: Value, value: Value,
    approved: bool, reviewedBy: string, reason: string)

  datatype Refusal =
    | ChecksumMismatch
    | LocationMismatch
    | ReviewMissing
    | ReferenceChanging
    | Unsupported
    | PreviousMismatch

  const SOURCE_KEY := "Source Key"
  const PROVENANCE := "Source Provenance"

  /** `text(row['Source Key']).split(':')[0]`; a number is no known kind. */
  function KindOf(row: Row): string {
    if SOURCE_KEY in row && row[SOURCE_KEY].Words? then BeforeColon(row[SOURCE_KEY].words) else ""
  }

  function BeforeColon(s: string): string {
    if s == "" || s[0] == ':' then "" else [s[0]] + BeforeColon(s[1..])
  }

  function ReferenceFields(kind: string): set<string> {
    match kind
    case "factory" => {"Name"}
    case "distributor" => {"Name", "GSTIN"}
    case "style" => {
      "Style Number", "LMIX Number", "Season Code", "Business Style", "Size Codes", "Barcodes",
      "Factory Mappings", "Factory Name Mappings" }
    case "store" => {"Distributor Name", "Distributor GSTIN"}
    case _ => {}
  }

  predicate AppliesTo(row: Row, c: Correction) {
    c.approved && SOURCE_KEY in row && row[SOURCE_KEY] == Words(c.sourceKey)
  }

  /** The approved corrections of this row, in order. */
  function Applicable(row: Row, corrections: seq<Correction>): seq<Correction> {
    if corrections == [] then []
    else
      var last := corrections[|corrections| - 1];
      Applicable(row, corrections[..|corrections| - 1]) + if AppliesTo(row, last) then [last] else []
  }

  /** The checks made before one correction is written, in the source's order. */
  function Check(kind: string, current: Row, at: Location, c: Correction): Option<Refusal> {
    if c.location.digest != at.digest then Some(ChecksumMismatch)
    else if c.location != at then Some(LocationMismatch)
    else if Trim(c.reviewedBy) == "" || Trim(c.reason) == "" then Some(ReviewMissing)
    else if c.value != c.previous && c.field in ReferenceFields(kind) then Some(ReferenceChanging)
    else if c.field == SOURCE_KEY || c.field == PROVENANCE || c.field !in current then Some(Unsupported)
    else if current[c.field] != c.previous then Some(PreviousMismatch)
    else None
  }

  function Fold(kind: string, current: Row, at: Location, corrections: seq<Correction>): Result<Row, Refusal>
    decreases |corrections|
  {
    if corrections == [] then Ok(current)
    else
      var c := corrections[0];
      match Check(kind, current, at, c)
      case Some(refusal) => Err(refusal)
      case None => Fold(kind, current[c.field := c.value], at, corrections[1..])
  }

  function Corrected(row: Row, at: Location, corrections: seq<Correction>): Result<Row, Refusal> {
    Fold(KindOf(row), row, at, Applicable(row, corrections))
  }

  lemma {:induction false} FoldOneMore(kind: string, current: Row, at: Location, done: seq<Correction>, c: Correction)
    ensures Fold(kind, current, at, done + [c]) ==
              match Fold(kind, current, at, done)
              case Err(e) => Err(e)
              case Ok(row) => match Check(kind, row, at, c)
                              case Some(e) => Err(e)
                              case None => Ok(row[c.field := c.value])
    decreases |done|
  {
    if done == [] {
      assert [c][1..] == [];
    } else {
      assert (done + [c])[1..] == done[1..] + [c];
      if Check(kind, current, at, done[0]) == None {
        FoldOneMore(kind, current[done[0].field := done[0].value], at, done[1..], c);
      }
    }
  }

  lemma {:induction false} FoldStops(
    kind: string, current: Row, at: Location, done: seq<Correction>, rest: seq<Correction>)
    requires Fold(kind, current, at, done).Err?
    ensures Fold(kind, current, at, done + rest) == Fold(kind, current, at, done)
    decreases |done|
  {
    assert (done + rest)[1..] == done[1..] + rest;
    if Check(kind, current, at, done[0]) == None {
      FoldStops(kind, current[done[0].field := done[0].value], at, done[1..], rest);
    }
  }

  /** The loop of applyCorrections: it filters, then writes into one copy of the row until a check fails. */
  method ApplyCorrections(row: Row, at: Location, corrections: seq<Correction>) returns (r: Result<Row, Refusal>)
    ensures r == Corrected(row, at, corrections)
  {
    var chosen: seq<Correction> := [];
    for n := 0 to |corrections|
      invariant chosen == Applicable(row, corrections[..n])
    {
      assert corrections[..n + 1][..n] == corrections[..n];
      if AppliesTo(row, corrections[n]) {
        chosen := chosen + [corrections[n]];
      }
    }
    assert corrections[..|corrections|] == corrections;
    var result, kind := row, KindOf(row);
    for n := 0 to |chosen|
      invariant Fold(kind, row, at, chosen[..n]) == Ok(result)
    {
      var c := chosen[n];
      FoldOneMore(kind, row, at, chosen[..n], c);
      assert chosen[..n + 1] == chosen[..n] + [c];
      var refusal := Check(kind, result, at, c);
      if refusal.Some? {
        FoldStops(kind, row, at, chosen[..n + 1], chosen[n + 1..]);
        assert chosen == chosen[..n + 1] + chosen[n + 1..];
        return Err(refusal.value);
      }
      result := result[c.field := c.value];
    }
    assert chosen[..|chosen|] == chosen;
    return Ok(result);
  }

  // ---------------------------------------------------------------------------
  // What a correction run means, field by field
  // ---------------------------------------------------------------------------

  /** The corrections to one field, in order. */
  function OnField(corrections: seq<Correction>, field: string): seq<Correction> {
    if corrections == [] then []
    else (if corrections[0].field == field then [corrections[0]] else []) + OnField(corrections[1..], field)
  }

  /** Each correction starts from the value before it. */
  predicate Chained(start: Value, chain: seq<Correction>) {
    forall i | 0 <= i < |chain| :: chain[i].previous == ValueBefore(start, chain, i)
  }

  function ValueBefore(start: Value, chain: seq<Correction>, i: nat): Value
    requires i < |chain|
  {
    if i == 0 then start else chain[i - 1].value
  }

  function EndOf(start: Value, chain: seq<Correction>): Value {
    if chain == [] then start else chain[|chain| - 1].value
  }

  /** The checks that look at the correction and the names of the row's columns only. */
  predicate Admissible(kind: string, columns: set<string>, at: Location, c: Correction) {
    && c.location == at && Trim(c.reviewedBy) != "" && Trim(c.reason) != ""
    && (c.field in ReferenceFields(kind) ==> c.value == c.previous)
    && c.field in columns - {SOURCE_KEY, PROVENANCE}
  }

  lemma CheckExactly(kind: string, current: Row, at: Location, c: Correction)
    ensures Check(kind, current, at, c) == None <==>
              Admissible(kind, current.Keys, at, c) && c.field in current && current[c.field] == c.previous
  {
  }

  lemma ChainTail(start: Value, c: Correction, rest: seq<Correction>)
    requires Chained(start, [c] + rest)
    ensures c.previous == start && Chained(c.value, rest)
  {
    var chain := [c] + rest;
    assert chain[0].previous == ValueBefore(start, chain, 0);
    forall i | 0 <= i < |rest| ensures rest[i].previous == ValueBefore(c.value, rest, i) {
      assert chain[i + 1].previous == ValueBefore(start, chain, i + 1);
    }
  }

  lemma ChainCons(start: Value, c: Correction, rest: seq<Correction>)
    requires c.previous == start && Chained(c.value, rest)
    ensures Chained(start, [c] + rest)
  {
    var chain := [c] + rest;
    forall i | 0 <= i < |chain| ensures chain[i].previous == ValueBefore(start, chain, i) {
      if i > 0 {
        assert rest[i - 1].previous == ValueBefore(c.value, rest, i - 1);
      }
    }
  }

  lemma ChainHead(start: Value, c: Correction, rest: seq<Correction>)
    ensures Chained(start, [c] + rest) <==> c.previous == start && Chained(c.value, rest)
    ensures EndOf(start, [c] + rest) == EndOf(c.value, rest)
  {
    if Chained(start, [c] + rest) { ChainTail(start, c, rest); }
    if c.previous == start && Chained(c.value, rest) { ChainCons(start, c, rest); }
  }

  /** The corrections of each field start at its value and follow on each other. */
  ghost predicate AllChained(current: Row, corrections: seq<Correction>) {
    forall f <- current :: Chained(current[f], OnField(corrections, f))
  }

  /** Each field holds the end of its chain. */
  ghost predicate AtChainEnds(current: Row, corrections: seq<Correction>, result: Row) {
    result.Keys == current.Keys && forall f <- current :: result[f] == EndOf(current[f], OnField(corrections, f))
  }

  lemma OnFieldHead(c: Correction, rest: seq<Correction>, f: string)
    ensures OnField([c] + rest, f) == if c.field == f then [c] + OnField(rest, f) else OnField(rest, f)
  {
    assert ([c] + rest)[1..] == rest;
  }

  lemma HeadField(current: Row, c: Correction, rest: seq<Correction>, f: string)
    requires c.field in current && f in current && current[c.field] == c.previous
    ensures var next := current[c.field := c.value];
            && (Chained(current[f], OnField([c] + rest, f)) <==> Chained(next[f], OnField(rest, f)))
            && EndOf(current[f], OnField([c] + rest, f)) == EndOf(next[f], OnField(rest, f))
  {
    OnFieldHead(c, rest, f);
    if c.field == f {
      ChainHead(current[f], c, OnField(rest, f));
    }
  }

  lemma HeadWritten(current: Row, c: Correction, rest: seq<Correction>)
    requires c.field in current && current[c.field] == c.previous
    ensures var next := current[c.field := c.value];
            && next.Keys == current.Keys
            && (AllChained(current, [c] + rest) <==> AllChained(next, rest))
            && forall result :: AtChainEnds(current, [c] + rest, result) <==> AtChainEnds(next, rest, result)
  {
    var next := current[c.field := c.value];
    assert next.Keys == current.Keys;
    forall f <- current ensures
        && (Chained(current[f], OnField([c] + rest, f)) <==> Chained(next[f], OnField(rest, f)))
        && EndOf(current[f], OnField([c] + rest, f)) == EndOf(next[f], OnField(rest, f)) {
      HeadField(current, c, rest, f);
    }
  }

  lemma HeadBreaks(current: Row, c: Correction, rest: seq<Correction>)
    requires c.field in current && current[c.field] != c.previous
    ensures !AllChained(current, [c] + rest)
  {
    OnFieldHead(c, rest, c.field);
    ChainHead(current[c.field], c, OnField(rest, c.field));
  }

  lemma {:induction false} FoldExactly(kind: string, current: Row, at: Location, corrections: seq<Correction>)
    ensures Fold(kind, current, at, corrections).Ok? <==>
              (forall c <- corrections :: Admissible(kind, current.Keys, at, c)) && AllChained(current, corrections)
    ensures Fold(kind, current, at, corrections).Ok? ==>
              AtChainEnds(current, corrections, Fold(kind, current, at, corrections).value)
    decreases |corrections|
  {
    if corrections != [] {
      var c, rest := corrections[0], corrections[1..];
      assert corrections == [c] + rest;
      CheckExactly(kind, current, at, c);
      if Check(kind, current, at, c) == None {
        HeadWritten(current, c, rest);
        FoldExactly(kind, current[c.field := c.value], at, rest);
      } else if Admissible(kind, current.Keys, at, c) {
        HeadBreaks(current, c, rest);
      }
    }
  }

  /**
   A run succeeds exactly when every approved correction is admissible by itself and those
   of each field form a chain from its value; the result is the end of every chain.
   */
  lemma CorrectedExactly(row: Row, at: Location, corrections: seq<Correction>)
    ensures var chosen := Applicable(row, corrections);
            Corrected(row, at, corrections).Ok? <==>
              (forall c <- chosen :: Admissible(KindOf(row), row.Keys, at, c)) && AllChained(row, chosen)
    ensures Corrected(row, at, corrections).Ok? ==>
              AtChainEnds(row, Applicable(row, corrections), Corrected(row, at, corrections).value)
  {
    FoldExactly(KindOf(row), row, at, Applicable(row, corrections));
  }

  lemma {:induction false} OnFieldFrom(corrections: seq<Correction>, field: string)
    ensures forall c <- OnField(corrections, field) :: c in corrections && c.field == field
    ensures (forall c <- corrections :: c.field != field) ==> OnField(corrections, field) == []
  {
    if corrections != [] {
      OnFieldFrom(corrections[1..], field);
    }
  }

  lemma {:induction false} UnchangingChain(start: Value, chain: seq<Correction>)
    requires Chained(start, chain) && forall c <- chain :: c.value == c.previous
    ensures EndOf(start, chain) == start
    decreases |chain|
  {
    if chain != [] {
      assert chain == [chain[0]] + chain[1..];
      ChainHead(start, chain[0], chain[1..]);
      UnchangingChain(chain[0].value, chain[1..]);
    }
  }

  /** No run changes a row's source key, its provenance or a field that identifies it, or touches an unnamed field. */
  lemma IdentityFieldsKept(row: Row, at: Location, corrections: seq<Correction>, f: string)
    requires Corrected(row, at, corrections).Ok? && f in row
    requires f in {SOURCE_KEY, PROVENANCE} + ReferenceFields(KindOf(row))
             || forall c <- Applicable(row, corrections) :: c.field != f
    ensures f in Corrected(row, at, corrections).value && Corrected(row, at, corrections).value[f] == row[f]
  {
    CorrectedExactly(row, at, corrections);
    var chosen := Applicable(row, corrections);
    OnFieldFrom(chosen, f);
    if f in {SOURCE_KEY, PROVENANCE} {
      assert forall c <- chosen :: Admissible(KindOf(row), row.Keys, at, c) && c.field != f;
    }
    var chain := OnField(chosen, f);
    assert forall c <- chain :: Admissible(KindOf(row), row.Keys, at, c);
    if f in ReferenceFields(KindOf(row)) {
      UnchangingChain(row[f], chain);
    }
  }

  /** Whatever the row and the review say, an approved correction to one of these two columns is refused. */
  lemma KeyAndProvenanceRefused(row: Row, at: Location, corrections: seq<Correction>, c: Correction)
    requires c in Applicable(row, corrections) && c.field in {"Source Key", "Source Provenance"}
    ensures Corrected(row, at, corrections).Err?
  {
    CorrectedExactly(row, at, corrections);
    assert !Admissible(KindOf(row), row.Keys, at, c);
  }

  lemma {:induction false} SameApplicable(row: Row, other: Row, corrections: seq<Correction>)
    requires SOURCE_KEY in row <==> SOURCE_KEY in other
    requires SOURCE_KEY in row ==> row[SOURCE_KEY] == other[SOURCE_KEY]
    ensures Applicable(row, corrections) == Applicable(other, corrections)
  {
    if corrections != [] {
      SameApplicable(row, other, corrections[..|corrections| - 1]);
    }
  }

  /** A corrected row accepts the same corrections again exactly when they changed nothing. */
  lemma SecondRunExactly(row: Row, at: Location, corrections: seq<Correction>)
    requires Corrected(row, at, corrections).Ok?
    ensures var result := Corrected(row, at, corrections).value;
            Corrected(result, at, corrections).Ok? <==> result == row
  {
    var chosen, result := Applicable(row, corrections), Corrected(row, at, corrections).value;
    CorrectedExactly(row, at, corrections);
    if SOURCE_KEY in row {
      IdentityFieldsKept(row, at, corrections, SOURCE_KEY);
    }
    SameApplicable(row, result, corrections);
    CorrectedExactly(result, at, corrections);
    if AllChained(result, chosen) {
      SameChains(row, result, chosen);
    }
  }

  lemma SameChains(row: Row, result: Row, chosen: seq<Correction>)
    requires AllChained(row, chosen) && AllChained(result, chosen) && AtChainEnds(row, chosen, result)
    ensures result == row
  {
    forall f <- row ensures result[f] == row[f] {
      var chain := OnField(chosen, f);
      assert Chained(row[f], chain) && Chained(result[f], chain);
      if chain != [] {
        assert chain[0].previous == ValueBefore(row[f], chain, 0) == ValueBefore(result[f], chain, 0);
      }
    }
  }

  lemma SameByField(row: Row, a: seq<Correction>, b: seq<Correction>)
    requires forall f <- row :: OnField(a, f) == OnField(b, f)
    ensures AllChained(row, a) ==> AllChained(row, b)
    ensures forall x, y | AtChainEnds(row, a, x) && AtChainEnds(row, b, y) :: x == y
  {
  }

  /** Corrections to different fields commute: only the order within each field matters. */
  lemma OrderAcrossFieldsIsFree(row: Row, at: Location, xs: seq<Correction>, ys: seq<Correction>)
    requires var a, b := Applicable(row, xs), Applicable(row, ys);
             (forall c :: c in a <==> c in b) && forall f <- row :: OnField(a, f) == OnField(b, f)
    ensures Corrected(row, at, xs).Ok? <==> Corrected(row, at, ys).Ok?
    ensures Corrected(row, at, xs).Ok? ==> Corrected(row, at, xs) == Corrected(row, at, ys)
  {
    CorrectedExactly(row, at, xs);
    CorrectedExactly(row, at, ys);
    SameByField(row, Applicable(row, xs), Applicable(row, ys));
    SameByField(row, Applicable(row, ys), Applicable(row, xs));
  }
}
