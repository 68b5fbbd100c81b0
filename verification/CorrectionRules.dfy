/**
 What a list of corrections does to a row, in terms of the list's own positions
 (apps/api/src/cli/master-source-normalization.ts:140-186).
 */
module CorrectionRules {
  import opened Prelude
  import opened SourceText
  import opened Corrections

  /** The correction is approved and names this row. */
  predicate Relevant(row: Row, c: Correction) {
    c.approved && "Source Key" in row && row["Source Key"] == Words(c.sourceKey)
  }

  predicate OfKind(row: Row, kind: string) {
    && "Source Key" in row && row["Source Key"].Words?
    && (row["Source Key"].words == kind || kind + ":" <= row["Source Key"].words)
  }

  /** The field identifies rows of this row's kind. */
  predicate Identifies(row: Row, field: string) {
    || (OfKind(row, "factory") && field == "Name")
    || (OfKind(row, "distributor") && field in {"Name", "GSTIN"})
    || (OfKind(row, "store") && field in {"Distributor Name", "Distributor GSTIN"})
    || (OfKind(row, "style") && field in {
          "Style Number", "LMIX Number", "Season Code", "Business Style", "Size Codes", "Barcodes",
          "Factory Mappings", "Factory Name Mappings"})
  }

  lemma {:induction false} BeforeColonOf(kind: string, rest: string)
    requires ':' !in kind && (rest == "" || rest[0] == ':')
    ensures BeforeColon(kind + rest) == kind
  {
    if kind != "" {
      assert kind[0] in kind;
      assert (kind + rest)[1..] == kind[1..] + rest;
      BeforeColonOf(kind[1..], rest);
    } else {
      assert kind + rest == rest;
    }
  }

  lemma {:induction false} BeforeColonSplits(s: string)
    ensures var kind := BeforeColon(s);
            ':' !in kind && (s == kind || kind + ":" <= s)
  {
    if s != "" && s[0] != ':' {
      BeforeColonSplits(s[1..]);
      assert s == [s[0]] + s[1..];
    }
  }

  lemma KindExactly(row: Row, kind: string)
    requires kind in {"factory", "distributor", "store", "style"}
    ensures KindOf(row) == kind <==> OfKind(row, kind)
  {
    assert ':' !in kind;
    if OfKind(row, kind) {
      var s := row["Source Key"].words;
      BeforeColonOf(kind, s[|kind|..]);
      assert s == kind + s[|kind|..];
    }
    if "Source Key" in row && row["Source Key"].Words? {
      BeforeColonSplits(row["Source Key"].words);
    }
  }

  lemma KnownKind(kind: string, field: string)
    ensures field in ReferenceFields(kind) <==>
              || (kind == "factory" && field == "Name")
              || (kind == "distributor" && field in {"Name", "GSTIN"})
              || (kind == "store" && field in {"Distributor Name", "Distributor GSTIN"})
              || (kind == "style" && field in {
                    "Style Number", "LMIX Number", "Season Code", "Business Style", "Size Codes", "Barcodes",
                    "Factory Mappings", "Factory Name Mappings"})
  {
  }

  lemma IdentifiesExactly(row: Row, field: string)
    ensures field in ReferenceFields(KindOf(row)) <==> Identifies(row, field)
  {
    KindExactly(row, "factory");
    KindExactly(row, "distributor");
    KindExactly(row, "store");
    KindExactly(row, "style");
    KnownKind(KindOf(row), field);
  }

  /** The correction is at its place, reviewed, and of a field that may be corrected. */
  predicate Allowed(row: Row, at: Location, c: Correction) {
    && c.location.digest == at.digest && c.location.worksheet == at.worksheet && c.location.row == at.row
    && Trim(c.reviewedBy) != "" && Trim(c.reason) != ""
    && (Identifies(row, c.field) ==> c.value == c.previous)
    && c.field in row && c.field != "Source Key" && c.field != "Source Provenance"
  }

  /** Position `m` holds a correction of the row's field. */
  predicate Touches(row: Row, corrections: seq<Correction>, m: nat, field: string)
    requires m < |corrections|
  {
    Relevant(row, corrections[m]) && corrections[m].field == field
  }

  /** Before position `n`, `m` is the last correction of the field. */
  predicate LastTouch(row: Row, corrections: seq<Correction>, n: nat, field: string, m: nat)
    requires n <= |corrections|
  {
    m < n && Touches(row, corrections, m, field) && forall l | m < l < n :: !Touches(row, corrections, l, field)
  }

  /** The field's value at position `n`: that of the last correction before, or the row's own. */
  ghost predicate ValueAt(row: Row, corrections: seq<Correction>, n: nat, field: string, v: Value)
    requires n <= |corrections|
  {
    || (exists m: nat :: LastTouch(row, corrections, n, field, m) && corrections[m].value == v)
    || (field in row && row[field] == v && forall m | 0 <= m < n :: !Touches(row, corrections, m, field))
  }

  /** Each relevant correction is allowed and starts from the value its field has by then. */
  ghost predicate AllFit(row: Row, at: Location, corrections: seq<Correction>) {
    forall n | 0 <= n < |corrections| && Relevant(row, corrections[n]) ::
      && Allowed(row, at, corrections[n])
      && ValueAt(row, corrections, n, corrections[n].field, corrections[n].previous)
  }

  /** Every field has the value it has at the end of the list. */
  ghost predicate Ends(row: Row, corrections: seq<Correction>, result: Row) {
    result.Keys == row.Keys && forall f <- row :: ValueAt(row, corrections, |corrections|, f, result[f])
  }

  lemma CorrectedOneMore(row: Row, at: Location, cs: seq<Correction>, c: Correction)
    ensures Corrected(row, at, cs + [c]) ==
              if !Relevant(row, c) then Corrected(row, at, cs)
              else match Corrected(row, at, cs)
                   case Err(e) => Err(e)
                   case Ok(now) => match Check(KindOf(row), now, at, c)
                                   case Some(e) => Err(e)
                                   case None => Ok(now[c.field := c.value])
  {
    assert (cs + [c])[..|cs|] == cs;
    assert Applicable(row, cs + [c]) == if Relevant(row, c) then Applicable(row, cs) + [c] else Applicable(row, cs);
    FoldOneMore(KindOf(row), row, at, Applicable(row, cs), c);
  }

  lemma EarlierValue(row: Row, cs: seq<Correction>, c: Correction, n: nat, field: string, v: Value)
    requires n <= |cs|
    ensures ValueAt(row, cs + [c], n, field, v) <==> ValueAt(row, cs, n, field, v)
  {
    var all := cs + [c];
    assert forall m | 0 <= m < n :: all[m] == cs[m];
    assert forall m | 0 <= m < n :: Touches(row, all, m, field) <==> Touches(row, cs, m, field);
    assert forall m: nat :: LastTouch(row, all, n, field, m) <==> LastTouch(row, cs, n, field, m);
  }

  lemma NextValue(row: Row, cs: seq<Correction>, c: Correction, field: string, v: Value)
    requires field in row
    ensures ValueAt(row, cs + [c], |cs| + 1, field, v) <==>
              if Relevant(row, c) && c.field == field then v == c.value else ValueAt(row, cs, |cs|, field, v)
  {
    var all, n := cs + [c], |cs|;
    EarlierValue(row, cs, c, n, field, v);
    if Relevant(row, c) && c.field == field {
      assert LastTouch(row, all, n + 1, field, n);
      assert Touches(row, all, n, field);
    } else {
      assert !Touches(row, all, n, field);
      assert forall m: nat :: LastTouch(row, all, n + 1, field, m) <==> LastTouch(row, all, n, field, m);
    }
  }

  lemma OneValue(row: Row, cs: seq<Correction>, n: nat, field: string, v: Value, w: Value)
    requires n <= |cs| && ValueAt(row, cs, n, field, v) && ValueAt(row, cs, n, field, w)
    ensures v == w
  {
    if k: nat, l: nat :| LastTouch(row, cs, n, field, k) && cs[k].value == v
                         && LastTouch(row, cs, n, field, l) && cs[l].value == w {
      assert Touches(row, cs, k, field) && Touches(row, cs, l, field);
    }
  }

  lemma FitsOneMore(row: Row, at: Location, cs: seq<Correction>, c: Correction)
    ensures AllFit(row, at, cs + [c]) <==>
              && AllFit(row, at, cs)
              && (Relevant(row, c) ==> Allowed(row, at, c) && ValueAt(row, cs, |cs|, c.field, c.previous))
  {
    var all := cs + [c];
    forall n | 0 <= n < |cs| ensures
        ValueAt(row, all, n, all[n].field, all[n].previous) <==> ValueAt(row, cs, n, cs[n].field, cs[n].previous) {
      EarlierValue(row, cs, c, n, cs[n].field, cs[n].previous);
    }
    EarlierValue(row, cs, c, |cs|, c.field, c.previous);
    assert all[|cs|] == c;
    if AllFit(row, at, all) {
      forall n | 0 <= n < |cs| && Relevant(row, cs[n]) ensures
          Allowed(row, at, cs[n]) && ValueAt(row, cs, n, cs[n].field, cs[n].previous) {
        assert all[n] == cs[n];
      }
    }
  }

  lemma CheckMeans(row: Row, now: Row, at: Location, c: Correction)
    requires now.Keys == row.Keys
    ensures Check(KindOf(row), now, at, c) == None <==> Allowed(row, at, c) && now[c.field] == c.previous
  {
    IdentifiesExactly(row, c.field);
  }

  lemma EndsOneMore(row: Row, cs: seq<Correction>, now: Row, c: Correction)
    requires Ends(row, cs, now) && c.field in row
    ensures Ends(row, cs + [c], if Relevant(row, c) then now[c.field := c.value] else now)
  {
    var next := if Relevant(row, c) then now[c.field := c.value] else now;
    forall f <- row ensures ValueAt(row, cs + [c], |cs| + 1, f, next[f]) {
      NextValue(row, cs, c, f, next[f]);
    }
  }

  lemma EndsWithout(row: Row, cs: seq<Correction>, now: Row, c: Correction)
    requires Ends(row, cs, now) && !Relevant(row, c)
    ensures Ends(row, cs + [c], now)
  {
    forall f <- row ensures ValueAt(row, cs + [c], |cs| + 1, f, now[f]) {
      NextValue(row, cs, c, f, now[f]);
    }
  }

  /**
   The whole operation, exactly: corrections that are not approved or name another row do
   not count; the run succeeds if and only if every other one is allowed and starts from the
   value its field has by then; and then each field has its last value.
   */
  lemma {:induction false} OutcomeExactly(row: Row, at: Location, corrections: seq<Correction>)
    ensures Corrected(row, at, corrections).Ok? <==> AllFit(row, at, corrections)
    ensures Corrected(row, at, corrections).Ok? ==> Ends(row, corrections, Corrected(row, at, corrections).value)
  {
    if corrections != [] {
      var cs, c := corrections[..|corrections| - 1], corrections[|corrections| - 1];
      assert corrections == cs + [c];
      OutcomeExactly(row, at, cs);
      CorrectedOneMore(row, at, cs, c);
      FitsOneMore(row, at, cs, c);
      if Corrected(row, at, cs).Ok? {
        OneStep(row, at, cs, Corrected(row, at, cs).value, c);
      }
    }
  }

  lemma OneStep(row: Row, at: Location, cs: seq<Correction>, now: Row, c: Correction)
    requires Ends(row, cs, now)
    ensures Relevant(row, c) ==>
              (Check(KindOf(row), now, at, c) == None <==>
                 Allowed(row, at, c) && ValueAt(row, cs, |cs|, c.field, c.previous))
    ensures Relevant(row, c) && Check(KindOf(row), now, at, c) == None ==> Ends(row, cs + [c], now[c.field := c.value])
    ensures !Relevant(row, c) ==> Ends(row, cs + [c], now)
  {
    CheckMeans(row, now, at, c);
    if c.field in row {
      assert ValueAt(row, cs, |cs|, c.field, now[c.field]);
      if ValueAt(row, cs, |cs|, c.field, c.previous) {
        OneValue(row, cs, |cs|, c.field, c.previous, now[c.field]);
      }
      EndsOneMore(row, cs, now, c);
    }
    if !Relevant(row, c) {
      EndsWithout(row, cs, now, c);
    }
  }

  // ---------------------------------------------------------------------------
  // Corrections that do not count
  // ---------------------------------------------------------------------------

  lemma SameOneMore(row: Row, at: Location, xs: seq<Correction>, ys: seq<Correction>, c: Correction)
    requires Corrected(row, at, xs) == Corrected(row, at, ys)
    ensures Corrected(row, at, xs + [c]) == Corrected(row, at, ys + [c])
  {
    CorrectedOneMore(row, at, xs, c);
    CorrectedOneMore(row, at, ys, c);
  }

  lemma LastOnItsOwn<T>(before: seq<T>, after: seq<T>)
    requires after != []
    ensures before + after == (before + after[..|after| - 1]) + [after[|after| - 1]]
  {
  }

  lemma {:induction false} SameAfter(
    row: Row, at: Location, xs: seq<Correction>, ys: seq<Correction>, after: seq<Correction>)
    requires Corrected(row, at, xs) == Corrected(row, at, ys)
    ensures Corrected(row, at, xs + after) == Corrected(row, at, ys + after)
    decreases |after|
  {
    if after == [] {
      assert xs + after == xs && ys + after == ys;
    } else {
      var n := |after| - 1;
      SameAfter(row, at, xs, ys, after[..n]);
      SameOneMore(row, at, xs + after[..n], ys + after[..n], after[n]);
      LastOnItsOwn(xs, after);
      LastOnItsOwn(ys, after);
    }
  }

  /** A correction that is not approved, or names another row, changes nothing wherever it stands, refusals included. */
  lemma UnapprovedIsIgnored(row: Row, at: Location, before: seq<Correction>, c: Correction, after: seq<Correction>)
    requires !c.approved || "Source Key" !in row || row["Source Key"] != Words(c.sourceKey)
    ensures Corrected(row, at, before + [c] + after) == Corrected(row, at, before + after)
  {
    CorrectedOneMore(row, at, before, c);
    SameAfter(row, at, before + [c], before, after);
  }

  /** With no approved correction for its key, a row stays as it is. */
  lemma {:induction false} NothingApproved(row: Row, at: Location, corrections: seq<Correction>)
    requires forall c <- corrections :: !c.approved || "Source Key" !in row || row["Source Key"] != Words(c.sourceKey)
    ensures Corrected(row, at, corrections) == Ok(row)
  {
    if corrections != [] {
      var n := |corrections| - 1;
      NothingApproved(row, at, corrections[..n]);
      assert corrections[n] in corrections && corrections == corrections[..n] + [corrections[n]];
      CorrectedOneMore(row, at, corrections[..n], corrections[n]);
    }
  }

  // ---------------------------------------------------------------------------
  // Why a run is refused
  // ---------------------------------------------------------------------------

  function Rank(x: Refusal): nat {
    match x
    case ChecksumMismatch => 0
    case LocationMismatch => 1
    case ReviewMissing => 2
    case ReferenceChanging => 3
    case Unsupported => 4
    case PreviousMismatch => 5
  }

  /** The fault of a correction that a refusal names; `now` is the row as corrected so far. */
  predicate Fault(x: Refusal, row: Row, now: Row, at: Location, c: Correction) {
    match x
    case ChecksumMismatch => c.location.digest != at.digest
    case LocationMismatch => c.location.worksheet != at.worksheet || c.location.row != at.row
    case ReviewMissing => Trim(c.reviewedBy) == "" || Trim(c.reason) == ""
    case ReferenceChanging => c.value != c.previous && Identifies(row, c.field)
    case Unsupported => c.field !in row || c.field == "Source Key" || c.field == "Source Provenance"
    case PreviousMismatch => c.field in now && now[c.field] != c.previous
  }

  lemma CheckFaults(row: Row, now: Row, at: Location, c: Correction)
    requires now.Keys == row.Keys
    ensures match Check(KindOf(row), now, at, c)
            case None => true
            case Some(x) => Fault(x, row, now, at, c) && forall y | Rank(y) < Rank(x) :: !Fault(y, row, now, at, c)
  {
    IdentifiesExactly(row, c.field);
  }

  lemma LastIsFirstFault(row: Row, at: Location, cs: seq<Correction>, c: Correction)
    requires Corrected(row, at, cs).Ok? && Corrected(row, at, cs + [c]).Err?
    ensures Relevant(row, c)
    ensures var x, now := Corrected(row, at, cs + [c]).error, Corrected(row, at, cs).value;
            Fault(x, row, now, at, c) && forall y | Rank(y) < Rank(x) :: !Fault(y, row, now, at, c)
  {
    CorrectedOneMore(row, at, cs, c);
    OutcomeExactly(row, at, cs);
    CheckFaults(row, Corrected(row, at, cs).value, at, c);
  }

  /** A run is refused at its first relevant correction with a fault, for the first of that correction's faults. */
  lemma {:induction false} RefusedForFirstFault(row: Row, at: Location, corrections: seq<Correction>) returns (n: nat)
    requires Corrected(row, at, corrections).Err?
    ensures n < |corrections| && Relevant(row, corrections[n]) && Corrected(row, at, corrections[..n]).Ok?
    ensures var x, now := Corrected(row, at, corrections).error, Corrected(row, at, corrections[..n]).value;
            && Fault(x, row, now, at, corrections[n])
            && forall y | Rank(y) < Rank(x) :: !Fault(y, row, now, at, corrections[n])
  {
    if corrections == [] {
      NothingApproved(row, at, corrections);
    }
    var m := |corrections| - 1;
    var cs, c := corrections[..m], corrections[m];
    assert corrections == cs + [c];
    CorrectedOneMore(row, at, cs, c);
    if Corrected(row, at, cs).Err? {
      n := RefusedForFirstFault(row, at, cs);
      assert corrections[..n] == cs[..n];
    } else {
      n := m;
      LastIsFirstFault(row, at, cs, c);
    }
  }
}
