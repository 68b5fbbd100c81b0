/**
 Planning and applying twice: exactly when the style preparation is idempotent
 (apps/api/src/cli/historical-import-style-prep.ts:250-650).
 */
module StyleCycle {
  import opened Prelude
  import opened StylePrep
  import opened StylePlan

  /** The entry creates nothing, conflicts with nothing and has nothing left to write. */
  predicate NothingToDo(s: Store, e: Entry) {
    && !Builds(e) && Settled(s, e)
    && (Verifies(e) && e.existing.value in s.styles && e.fields.hsnDescription.Some? ==>
          s.styles[e.existing.value].fields.hsnDescription == e.fields.hsnDescription)
  }

  predicate HasKey(s: Store, id: nat, e: Entry) {
    id in s.styles && e.season == Some(s.styles[id].season) && e.lmix == s.styles[id].lmix
  }

  /** The entries that create styles do so under keys of their own. */
  ghost predicate FreshKeys(s: Store, plan: seq<Entry>) {
    && (forall e <- plan | Builds(e) :: forall id <- s.styles :: !HasKey(s, id, e))
    && (forall i, j | 0 <= i < j < |plan| && Builds(plan[i]) && Builds(plan[j]) ::
          (plan[i].season, plan[i].lmix) != (plan[j].season, plan[j].lmix))
  }

  /** Every style was there before or is made by an entry of the plan. */
  ghost predicate FromPlan(s: Store, now: Store, plan: seq<Entry>) {
    forall id <- now.styles :: id in s.styles || exists e <- plan :: Builds(e) && HasKey(now, id, e)
  }

  lemma StyleKeysAfterEntry(r: Run, m: Masters, read: map<nat, Fields>, e: Entry)
    requires Valid(r.store)
    ensures var now := ApplyEntry(r, m, read, e).store;
            && (forall id <- r.store.styles ::
                  && id in now.styles && now.styles[id].season == r.store.styles[id].season
                  && now.styles[id].lmix == r.store.styles[id].lmix)
            && (forall id <- now.styles ::
                  id in r.store.styles || (id == r.store.nextId && Builds(e) && HasKey(now, id, e)))
  {
    if !r.halted {
      if Verifies(e) {
        MappingsOnlyAdd(VerifyStyle(r, read, e), m, e.existing.value, e);
      } else if Builds(e) {
        MappingsOnlyAdd(CreateStyle(r, m, e), m, r.store.nextId, e);
      }
    }
  }

  /** Every new style has a season and LMIX number of its own. */
  ghost predicate NewKeysUnique(s: Store, now: Store) {
    forall a, b | a in now.styles && b in now.styles && b !in s.styles && a != b ::
      (now.styles[a].season, now.styles[a].lmix) != (now.styles[b].season, now.styles[b].lmix)
  }

  lemma FromLongerPlan(s: Store, before: Store, now: Store, plan: seq<Entry>, e: Entry, added: nat)
    requires NewKeysUnique(s, before) && FromPlan(s, before, plan) && Kept(s, before) && FreshKeys(s, plan + [e])
    requires forall id <- before.styles ::
               && id in now.styles && now.styles[id].season == before.styles[id].season
               && now.styles[id].lmix == before.styles[id].lmix
    requires forall id <- now.styles :: id in before.styles || (id == added && Builds(e) && HasKey(now, id, e))
    ensures NewKeysUnique(s, now) && FromPlan(s, now, plan + [e])
  {
    var all := plan + [e];
    assert e in all;
    forall id <- now.styles ensures id in s.styles || exists x <- all :: Builds(x) && HasKey(now, id, x) {
      if id in before.styles && id !in s.styles {
        var x :| x in plan && Builds(x) && HasKey(before, id, x);
        assert x in all && HasKey(now, id, x);
      }
    }
    forall id <- before.styles ensures Builds(e) ==> !HasKey(before, id, e) {
      if Builds(e) && id !in s.styles {
        var x :| x in plan && Builds(x) && HasKey(before, id, x);
        var i :| 0 <= i < |plan| && plan[i] == x;
        assert all[i] == x && all[|plan|] == e;
      } else if Builds(e) {
        assert !HasKey(s, id, e);
      }
    }
  }

  lemma {:induction false} RunStylesFromPlan(s: Store, m: Masters, read: map<nat, Fields>, plan: seq<Entry>)
    requires Valid(s) && FreshKeys(s, plan) && forall e <- plan :: ReadAt(s, read, e)
    ensures var now := ApplyAll(s, m, read, plan).store;
            NewKeysUnique(s, now) && FromPlan(s, now, plan)
  {
    if plan != [] {
      var n := |plan| - 1;
      var r := ApplyAll(s, m, read, plan[..n]);
      assert plan == plan[..n] + [plan[n]];
      RunStylesFromPlan(s, m, read, plan[..n]);
      RunKeeps(s, m, read, plan[..n]);
      StyleKeysAfterEntry(r, m, read, plan[n]);
      FromLongerPlan(s, r.store, ApplyAll(s, m, read, plan).store, plan[..n], plan[n], r.store.nextId);
    }
  }

  lemma FieldsSetByMerge(previous: Fields, proposed: Fields)
    ensures FieldsSet(proposed, MergedFields(previous, proposed)) && FieldsSet(proposed, proposed)
  {
  }

  /** The fresh plan of these sources runs to its end and leaves `now`. */
  ghost predicate Finishes(sources: seq<Source>, k: Lookup, s: Store, rows: seq<StyleRow>, m: Masters, now: Store) {
    var done := Applied(s, m, PlanOf(sources, k, s, rows));
    done.Some? && !done.value.halted && done.value.store == now
  }

  /** Mappings present for the first plan are present for the next one, which looks for the same sizes and factory. */
  lemma MappingsStillPresent(
    src: Source, k: Lookup, s: Store, existing: Option<nat>, now: Store, id: nat, e: Entry, next: Entry)
    requires e.sizes == PlanSizes(src.sizeCodes, k, s, existing) && e.factory == PlanFactory(src, k, s, existing)
    requires next.sizes == PlanSizes(src.sizeCodes, k, now, Some(id))
    requires next.factory == PlanFactory(src, k, now, Some(id))
    requires existing.Some? ==> existing.value == id
    requires s.rates.Keys <= now.rates.Keys && MappingsPresent(now, id, e)
    ensures MappingsPresent(now, id, next)
  {
    forall size <- next.sizes ensures SizePresent(now, id, size) {
      var i :| 0 <= i < |next.sizes| && next.sizes[i] == size;
      assert e.sizes[i] in e.sizes && SizePresent(now, id, e.sizes[i]);
    }
  }

  /** The planner finds the style it found before. */
  lemma VerifiedAgain(
    sources: seq<Source>, k: Lookup, s: Store, rows: seq<StyleRow>, m: Masters, now: Store,
    nextRows: seq<StyleRow>, i: nat)
    requires Valid(s) && WellFormed(sources, k) && Listed(rows, s) && Listed(nextRows, now)
    requires i < |sources| && Verifies(PlanEntry(sources[i], k, s, rows))
    requires ExistingOf(sources[i], k, nextRows) == ExistingOf(sources[i], k, rows)
    requires Finishes(sources, k, s, rows, m, now)
    ensures NothingToDo(now, PlanEntry(sources[i], k, now, nextRows))
  {
    var plan, src := PlanOf(sources, k, s, rows), sources[i];
    var e, next := PlanEntry(src, k, s, rows), PlanEntry(src, k, now, nextRows);
    assert plan[i] == e && e in plan;
    ExistingMeans(src, k, s, rows);
    NothingIsOverwritten(s, m, plan);
    var id := e.existing.value;
    FreshPlanIsOneEntryPerStyle(sources, k, s, rows);
    ReportIsExact(s, m, plan, i);
    FieldsSetByMerge(FieldsOf(s, id), e.fields);
    RunSettles(s, m, Snapshot(s, plan), plan);
    assert Settled(now, e);
    MappingsStillPresent(src, k, s, Some(id), now, id, e, next);
  }

  lemma CreatedIsVerified(
    sources: seq<Source>, k: Lookup, s: Store, rows: seq<StyleRow>, m: Masters, now: Store,
    nextRows: seq<StyleRow>, i: nat)
    requires Valid(s) && WellFormed(sources, k) && Listed(rows, s) && Listed(nextRows, now) && NewKeysUnique(s, now)
    requires i < |sources| && Builds(PlanEntry(sources[i], k, s, rows))
    requires Finishes(sources, k, s, rows, m, now)
    ensures var next := PlanEntry(sources[i], k, now, nextRows); Verifies(next) && NothingToDo(now, next)
  {
    var plan, src := PlanOf(sources, k, s, rows), sources[i];
    var e, next := PlanEntry(src, k, s, rows), PlanEntry(src, k, now, nextRows);
    assert plan[i] == e && e in plan;
    FreshPlanIsOneEntryPerStyle(sources, k, s, rows);
    NothingIsOverwritten(s, m, plan);
    var id := CreatedStyleIsBuilt(s, m, Snapshot(s, plan), plan, i);
    ExistingMeans(src, k, s, rows);
    ExistingMeans(src, k, now, nextRows);
    assert next.existing == Some(id);
    FieldsSetByMerge(BLANK, e.fields);
    BuiltIsPresent(now, id, e);
    MappingsStillPresent(src, k, s, None, now, id, e, next);
  }

  lemma FreshPlanHasFreshKeys(sources: seq<Source>, k: Lookup, s: Store, rows: seq<StyleRow>)
    requires WellFormed(sources, k) && Listed(rows, s)
    ensures FreshKeys(s, PlanOf(sources, k, s, rows))
  {
    var plan := PlanOf(sources, k, s, rows);
    forall e <- plan | Builds(e) ensures forall id <- s.styles :: !HasKey(s, id, e) {
      var i :| 0 <= i < |plan| && plan[i] == e;
      ExistingMeans(sources[i], k, s, rows);
    }
    forall i, j | 0 <= i < j < |plan| && Builds(plan[i]) && Builds(plan[j])
      ensures (plan[i].season, plan[i].lmix) != (plan[j].season, plan[j].lmix)
    {
      SameSeasonSameCode(sources[i], sources[j], k);
    }
  }

  lemma SameSeasonSameCode(a: Source, b: Source, k: Lookup)
    requires forall x, y | x in k.seasons && y in k.seasons && x.id == y.id :: x == y
    ensures SeasonId(k.seasons, a.season).Some? && SeasonId(k.seasons, a.season) == SeasonId(k.seasons, b.season)
            ==> a.season == b.season
  {
    var x, y := SeasonId(k.seasons, a.season), SeasonId(k.seasons, b.season);
    if x.Some? && x == y {
      assert SeasonRow(x.value, a.season) in k.seasons && SeasonRow(y.value, b.season) in k.seasons;
    }
  }

  lemma SameKeySameSource(sources: seq<Source>, k: Lookup, i: nat, j: nat)
    requires WellFormed(sources, k) && i < |sources| && j < |sources|
    requires SeasonId(k.seasons, sources[i].season).Some? && sources[i].lmix == sources[j].lmix
    requires SeasonId(k.seasons, sources[i].season) == SeasonId(k.seasons, sources[j].season)
    ensures i == j
  {
    SameSeasonSameCode(sources[i], sources[j], k);
  }

  lemma MakerOf(s: Store, now: Store, plan: seq<Entry>, id: nat) returns (j: nat)
    requires FromPlan(s, now, plan) && id in now.styles && id !in s.styles
    ensures j < |plan| && Builds(plan[j]) && HasKey(now, id, plan[j])
  {
    var x :| x in plan && Builds(x) && HasKey(now, id, x);
    j :| 0 <= j < |plan| && plan[j] == x;
  }

  lemma PlannedKey(src: Source, k: Lookup, s: Store, rows: seq<StyleRow>)
    ensures Builds(PlanEntry(src, k, s, rows)) ==>
              PlanEntry(src, k, s, rows).season == SeasonId(k.seasons, src.season)
              && PlanEntry(src, k, s, rows).lmix == src.lmix
  {
  }

  /** A new style under the key of a source is made by that source's own entry. */
  lemma NewStyleHasItsMaker(
    sources: seq<Source>, k: Lookup, s: Store, rows: seq<StyleRow>, now: Store, i: nat, id: nat)
    requires WellFormed(sources, k) && i < |sources| && FromPlan(s, now, PlanOf(sources, k, s, rows))
    requires id in now.styles && id !in s.styles
    requires SeasonId(k.seasons, sources[i].season) == Some(now.styles[id].season)
    requires sources[i].lmix == now.styles[id].lmix
    ensures Builds(PlanEntry(sources[i], k, s, rows))
  {
    var j := MakerOf(s, now, PlanOf(sources, k, s, rows), id);
    PlannedKey(sources[j], k, s, rows);
    SameKeySameSource(sources, k, i, j);
  }

  lemma StillWithoutStyle(
    sources: seq<Source>, k: Lookup, s: Store, rows: seq<StyleRow>, now: Store, nextRows: seq<StyleRow>, i: nat)
    requires WellFormed(sources, k) && Listed(rows, s) && Listed(nextRows, now) && Kept(s, now) && i < |sources|
    requires FromPlan(s, now, PlanOf(sources, k, s, rows)) && !Builds(PlanEntry(sources[i], k, s, rows))
    requires ExistingOf(sources[i], k, rows).None?
    ensures ExistingOf(sources[i], k, nextRows).None?
  {
    ExistingMeans(sources[i], k, s, rows);
    ExistingMeans(sources[i], k, now, nextRows);
    var next := ExistingOf(sources[i], k, nextRows);
    if next.Some? && next.value !in s.styles {
      NewStyleHasItsMaker(sources, k, s, rows, now, i, next.value);
    }
  }

  /** An entry that neither verifies nor creates stays without a style: no other entry makes one under its key. */
  lemma StillNothing(
    sources: seq<Source>, k: Lookup, s: Store, rows: seq<StyleRow>, now: Store, nextRows: seq<StyleRow>, i: nat)
    requires WellFormed(sources, k) && Listed(rows, s) && Listed(nextRows, now) && Kept(s, now) && i < |sources|
    requires FromPlan(s, now, PlanOf(sources, k, s, rows))
    requires var e := PlanEntry(sources[i], k, s, rows); !Verifies(e) && !Builds(e)
    ensures NothingToDo(now, PlanEntry(sources[i], k, now, nextRows))
  {
    if ExistingOf(sources[i], k, rows).None? {
      StillWithoutStyle(sources, k, s, rows, now, nextRows, i);
    }
  }

  // ---------------------------------------------------------------------------
  // Styles that share a key
  // ---------------------------------------------------------------------------

  /** The style has the season and LMIX number of the source. */
  predicate Keyed(s: Store, id: nat, src: Source, k: Lookup) {
    id in s.styles && SeasonId(k.seasons, src.season) == Some(s.styles[id].season) && src.lmix == s.styles[id].lmix
  }

  /**
   The style already has a value in every field the source fills, the source's description, its
   sizes and its rate.
   */
  predicate Served(s: Store, id: nat, src: Source, k: Lookup) {
    && FieldsSet(src.fields, FieldsOf(s, id))
    && (src.fields.hsnDescription.Some? ==> FieldsOf(s, id).hsnDescription == src.fields.hsnDescription)
    && (forall code <- src.sizeCodes :: code in k.sizes ==> (id, k.sizes[code]) in s.sizes)
    && (src.factory.Some? && src.factory.value != "" && src.factory.value in k.factories && src.cost.Some? ==>
          (id, k.factories[src.factory.value]) in s.rates)
  }

  lemma SizesServed(src: Source, k: Lookup, s: Store, id: nat)
    ensures (forall code <- src.sizeCodes :: code in k.sizes ==> (id, k.sizes[code]) in s.sizes) <==>
            (forall size <- PlanSizes(src.sizeCodes, k, s, Some(id)) :: SizePresent(s, id, size))
  {
    var sizes := PlanSizes(src.sizeCodes, k, s, Some(id));
    if forall size <- sizes :: SizePresent(s, id, size) {
      forall code <- src.sizeCodes ensures code in k.sizes ==> (id, k.sizes[code]) in s.sizes {
        var i :| 0 <= i < |src.sizeCodes| && src.sizeCodes[i] == code;
        assert sizes[i] in sizes && SizePresent(s, id, sizes[i]);
      }
    }
    if forall code <- src.sizeCodes :: code in k.sizes ==> (id, k.sizes[code]) in s.sizes {
      forall size <- sizes ensures SizePresent(s, id, size) {
        var i :| 0 <= i < |sizes| && sizes[i] == size;
        assert src.sizeCodes[i] in src.sizeCodes;
      }
    }
  }

  /** A plan that finds a style leaves it alone exactly when it is already served. */
  lemma ServedExactly(src: Source, k: Lookup, s: Store, rows: seq<StyleRow>, id: nat)
    requires src.resolved && Keyed(s, id, src, k) && ExistingOf(src, k, rows) == Some(id)
    ensures NothingToDo(s, PlanEntry(src, k, s, rows)) <==> Served(s, id, src, k)
  {
    SizesServed(src, k, s, id);
  }

  /** Only the entry of the source with its key ever names a style. */
  lemma OnlyOwnEntry(sources: seq<Source>, k: Lookup, s: Store, rows: seq<StyleRow>, i: nat, id: nat)
    requires WellFormed(sources, k) && Listed(rows, s) && i < |sources| && Keyed(s, id, sources[i], k)
    requires ExistingOf(sources[i], k, rows) != Some(id)
    ensures forall e <- PlanOf(sources, k, s, rows) | Verifies(e) :: e.existing != Some(id)
  {
    var plan := PlanOf(sources, k, s, rows);
    forall e <- plan | Verifies(e) ensures e.existing != Some(id) {
      var j :| 0 <= j < |plan| && plan[j] == e;
      ExistingMeans(sources[j], k, s, rows);
      if e.existing == Some(id) {
        SameKeySameSource(sources, k, i, j);
      }
    }
  }

  lemma SameServed(s: Store, now: Store, id: nat, src: Source, k: Lookup)
    requires FieldsOf(now, id) == FieldsOf(s, id) && SameMappings(s, now, id)
    ensures Served(now, id, src, k) <==> Served(s, id, src, k)
  {
    assert forall f: nat :: (id, f) in now.rates <==> RateOf(now, id, f).Some?;
    assert forall f: nat :: (id, f) in s.rates <==> RateOf(s, id, f).Some?;
  }

  /** A style the first plan did not find for its source is served after the run exactly when it was before. */
  lemma RivalUnchanged(
    sources: seq<Source>, k: Lookup, s: Store, rows: seq<StyleRow>, m: Masters, now: Store, i: nat, id: nat)
    requires Valid(s) && WellFormed(sources, k) && Listed(rows, s) && Finishes(sources, k, s, rows, m, now)
    requires i < |sources| && Keyed(s, id, sources[i], k) && ExistingOf(sources[i], k, rows) != Some(id)
    ensures Keyed(now, id, sources[i], k)
    ensures Served(now, id, sources[i], k) <==> Served(s, id, sources[i], k)
  {
    var plan := PlanOf(sources, k, s, rows);
    OnlyOwnEntry(sources, k, s, rows, i, id);
    NothingIsOverwritten(s, m, plan);
    UnnamedStyleStays(s, m, Snapshot(s, plan), plan, id);
    UnnamedMappingsStay(s, m, Snapshot(s, plan), plan, id);
    SameServed(s, now, id, sources[i], k);
  }

  /**
   Before the run: every style that shares its key with a source, other than the one found for it,
   is already served.
   */
  ghost predicate RivalsServed(sources: seq<Source>, k: Lookup, s: Store, rows: seq<StyleRow>) {
    forall i, id: nat | 0 <= i < |sources| && Keyed(s, id, sources[i], k) ::
      sources[i].resolved && ExistingOf(sources[i], k, rows) != Some(id) ==> Served(s, id, sources[i], k)
  }

  lemma VerifiedNext(
    sources: seq<Source>, k: Lookup, s: Store, rows: seq<StyleRow>, m: Masters, now: Store,
    nextRows: seq<StyleRow>, i: nat)
    requires Valid(s) && WellFormed(sources, k) && Listed(rows, s) && Listed(nextRows, now) && Kept(s, now)
    requires FromPlan(s, now, PlanOf(sources, k, s, rows))
    requires Finishes(sources, k, s, rows, m, now) && RivalsServed(sources, k, s, rows)
    requires i < |sources| && Verifies(PlanEntry(sources[i], k, s, rows))
    ensures NothingToDo(now, PlanEntry(sources[i], k, now, nextRows))
  {
    var src := sources[i];
    ExistingMeans(src, k, s, rows);
    ExistingMeans(src, k, now, nextRows);
    var found := ExistingOf(src, k, nextRows);
    if found == ExistingOf(src, k, rows) {
      VerifiedAgain(sources, k, s, rows, m, now, nextRows, i);
    } else {
      var id := found.value;
      if id !in s.styles {
        NewStyleHasItsMaker(sources, k, s, rows, now, i, id);
      }
      RivalUnchanged(sources, k, s, rows, m, now, i, id);
      ServedExactly(src, k, now, nextRows, id);
    }
  }

  lemma NextEntryHasNothingToDo(
    sources: seq<Source>, k: Lookup, s: Store, rows: seq<StyleRow>, m: Masters, now: Store,
    nextRows: seq<StyleRow>, i: nat)
    requires Valid(s) && WellFormed(sources, k) && Listed(rows, s) && Listed(nextRows, now)
    requires Finishes(sources, k, s, rows, m, now) && RivalsServed(sources, k, s, rows)
    requires i < |sources|
    ensures NothingToDo(now, PlanEntry(sources[i], k, now, nextRows))
  {
    var plan := PlanOf(sources, k, s, rows);
    FreshPlanHasFreshKeys(sources, k, s, rows);
    RunStylesFromPlan(s, m, Snapshot(s, plan), plan);
    NothingIsOverwritten(s, m, plan);
    if Verifies(plan[i]) {
      VerifiedNext(sources, k, s, rows, m, now, nextRows, i);
    } else if Builds(plan[i]) {
      CreatedIsVerified(sources, k, s, rows, m, now, nextRows, i);
    } else {
      StillNothing(sources, k, s, rows, now, nextRows, i);
    }
  }

  /** Planning and applying is not refused, does not stop, creates no style and writes nothing. */
  ghost predicate Quiet(sources: seq<Source>, k: Lookup, now: Store, rows: seq<StyleRow>, m: Masters) {
    var again := Applied(now, m, PlanOf(sources, k, now, rows));
    again.Some? && !again.value.halted && again.value.created == [] && again.value.store == now
  }

  lemma NothingToDoIsQuiet(sources: seq<Source>, k: Lookup, now: Store, rows: seq<StyleRow>, m: Masters)
    requires forall i | 0 <= i < |sources| :: NothingToDo(now, PlanEntry(sources[i], k, now, rows))
    ensures Quiet(sources, k, now, rows, m)
  {
    var plan := PlanOf(sources, k, now, rows);
    var read := Snapshot(now, plan);
    forall e <- plan ensures NothingToDo(now, e) && ReadAt(now, read, e) && !Conflicts(read, e) {
      var i :| 0 <= i < |plan| && plan[i] == e;
    }
    SettledPlanWritesNothing(now, m, read, plan);
  }

  lemma QuietEntryServed(sources: seq<Source>, k: Lookup, now: Store, rows: seq<StyleRow>, m: Masters, i: nat, id: nat)
    requires Valid(now) && Quiet(sources, k, now, rows, m) && i < |sources|
    requires sources[i].resolved && Keyed(now, id, sources[i], k) && ExistingOf(sources[i], k, rows) == Some(id)
    ensures Served(now, id, sources[i], k)
  {
    var plan := PlanOf(sources, k, now, rows);
    var read, e := Snapshot(now, plan), plan[i];
    assert e in plan && !Conflicts(read, e);
    RunSettles(now, m, read, plan);
    assert Settled(now, e);
    ServedExactly(sources[i], k, now, rows, id);
  }

  /** The styles can be listed with any one of them first. */
  lemma {:induction false} ListAll(s: Store, ids: set<nat>) returns (rows: seq<StyleRow>)
    requires ids <= s.styles.Keys
    ensures forall r :: r in rows <==> r.id in ids && s.styles[r.id].season == r.season && s.styles[r.id].lmix == r.lmix
    decreases ids
  {
    if ids == {} {
      rows := [];
    } else {
      var id :| id in ids;
      rows := ListAll(s, ids - {id});
      rows := [StyleRow(id, s.styles[id].season, s.styles[id].lmix)] + rows;
    }
  }

  lemma ListedFirst(s: Store, id: nat, src: Source, k: Lookup) returns (rows: seq<StyleRow>)
    requires Keyed(s, id, src, k)
    ensures Listed(rows, s) && ExistingOf(src, k, rows) == Some(id)
  {
    rows := ListAll(s, s.styles.Keys);
    rows := [StyleRow(id, s.styles[id].season, s.styles[id].lmix)] + rows;
  }

  /**
   Exactly when the preparation is idempotent. After a run that finished, planning and
   applying again is quiet in whatever order the styles are then read, if and only if before
   the run every style that shared season and LMIX number with a source, other than the one
   found for it, was already served.
   */
  lemma CycleIsIdempotentExactly(sources: seq<Source>, k: Lookup, s: Store, rows: seq<StyleRow>, m: Masters, now: Store)
    requires Valid(s) && WellFormed(sources, k) && Listed(rows, s) && Finishes(sources, k, s, rows, m, now)
    ensures (forall nextRows | Listed(nextRows, now) :: Quiet(sources, k, now, nextRows, m)) <==>
            RivalsServed(sources, k, s, rows)
  {
    NothingIsOverwritten(s, m, PlanOf(sources, k, s, rows));
    if RivalsServed(sources, k, s, rows) {
      forall nextRows | Listed(nextRows, now) ensures Quiet(sources, k, now, nextRows, m) {
        forall i | 0 <= i < |sources| ensures NothingToDo(now, PlanEntry(sources[i], k, now, nextRows)) {
          NextEntryHasNothingToDo(sources, k, s, rows, m, now, nextRows, i);
        }
        NothingToDoIsQuiet(sources, k, now, nextRows, m);
      }
    }
    if forall nextRows | Listed(nextRows, now) :: Quiet(sources, k, now, nextRows, m) {
      forall i, id: nat | 0 <= i < |sources| && Keyed(s, id, sources[i], k)
        ensures sources[i].resolved && ExistingOf(sources[i], k, rows) != Some(id) ==> Served(s, id, sources[i], k)
      {
        if sources[i].resolved && ExistingOf(sources[i], k, rows) != Some(id) {
          RivalUnchanged(sources, k, s, rows, m, now, i, id);
          var nextRows := ListedFirst(now, id, sources[i], k);
          QuietEntryServed(sources, k, now, nextRows, m, i, id);
        }
      }
    }
  }

  /** No two styles share season and LMIX number; the database does not enforce this. */
  ghost predicate UniqueStyles(s: Store) {
    forall a, b | a in s.styles && b in s.styles && a != b ::
      (s.styles[a].season, s.styles[a].lmix) != (s.styles[b].season, s.styles[b].lmix)
  }

  /**
   In particular it is idempotent when no two styles share a key, whatever the first run created,
   verified or blocked.
   */
  lemma CycleIsIdempotent(
    sources: seq<Source>, k: Lookup, s: Store, rows: seq<StyleRow>, m: Masters, now: Store, nextRows: seq<StyleRow>)
    requires Valid(s) && WellFormed(sources, k) && Listed(rows, s) && Listed(nextRows, now) && UniqueStyles(s)
    requires Finishes(sources, k, s, rows, m, now)
    ensures Quiet(sources, k, now, nextRows, m)
  {
    forall i, id: nat | 0 <= i < |sources| && Keyed(s, id, sources[i], k)
      ensures ExistingOf(sources[i], k, rows) == Some(id)
    {
      ExistingMeans(sources[i], k, s, rows);
    }
    CycleIsIdempotentExactly(sources, k, s, rows, m, now);
  }

  // ---------------------------------------------------------------------------
  // A rival that is not served
  // ---------------------------------------------------------------------------

  function OneField(number: string, now: Option<string>): Style {
    Style(number, 1, "L", Fields(now, None, None))
  }

  lemma OneVerification(src: Source, k: Lookup, s: Store, rows: seq<StyleRow>, m: Masters, id: nat)
    requires Listed(rows, s) && src.resolved && src.sizeCodes == [] && src.factory == None
    requires src.fields == Fields(Some("A"), None, None) && ExistingOf(src, k, rows) == Some(id)
    requires FieldsOf(s, id) == BLANK
    ensures var done := Applied(s, m, PlanOf([src], k, s, rows));
            && done.Some? && !done.value.halted
            && done.value.store == s.(styles := s.styles[id := s.styles[id].(fields := src.fields)])
  {
    ExistingMeans(src, k, s, rows);
    var plan := PlanOf([src], k, s, rows);
    var e := PlanEntry(src, k, s, rows);
    assert plan == [e] && plan[..0] == [] && e in plan;
    var read := Snapshot(s, plan);
    assert ApplyAll(s, m, read, plan) == ApplyEntry(Start(s), m, read, e);
  }

  ghost predicate ReadsBothWays(s: Store, rows: seq<StyleRow>, nextRows: seq<StyleRow>) {
    && rows == [StyleRow(1, 1, "L"), StyleRow(2, 1, "L")] && Listed(rows, s)
    && nextRows == [StyleRow(2, 1, "L"), StyleRow(1, 1, "L")] && Listed(nextRows, s)
  }

  lemma TwoStyles(s: Store) returns (rows: seq<StyleRow>, nextRows: seq<StyleRow>)
    requires s.styles.Keys == {1, 2} && forall id <- s.styles :: s.styles[id].season == 1 && s.styles[id].lmix == "L"
    ensures ReadsBothWays(s, rows, nextRows) && !UniqueStyles(s)
  {
    rows, nextRows := [StyleRow(1, 1, "L"), StyleRow(2, 1, "L")], [StyleRow(2, 1, "L"), StyleRow(1, 1, "L")];
    assert forall r :: r in rows <==> r == StyleRow(1, 1, "L") || r == StyleRow(2, 1, "L");
    assert forall r :: r in nextRows <==> r == StyleRow(1, 1, "L") || r == StyleRow(2, 1, "L");
    assert 1 in s.styles && 2 in s.styles;
  }

  function SharedKeySource(): Source {
    Source("AW25", "L", true, "", None, None, None, Fields(Some("A"), None, None), [], None)
  }

  function SharedKeyTables(): Store {
    Store(map[1 := OneField("A-1", None), 2 := OneField("A-2", None)], {}, map[], 3)
  }

  lemma FirstCycle(k: Lookup, rows: seq<StyleRow>, m: Masters) returns (now: Store)
    requires k == Lookup([SeasonRow(1, "AW25")], map[], map[]) && Listed(rows, SharedKeyTables())
    requires rows == [StyleRow(1, 1, "L"), StyleRow(2, 1, "L")]
    ensures now == SharedKeyTables().(styles := SharedKeyTables().styles[1 := OneField("A-1", Some("A"))])
    ensures Finishes([SharedKeySource()], k, SharedKeyTables(), rows, m, now)
  {
    var src, s := SharedKeySource(), SharedKeyTables();
    now := s.(styles := s.styles[1 := OneField("A-1", Some("A"))]);
    assert ExistingOf(src, k, rows) == Some(1);
    OneVerification(src, k, s, rows, m, 1);
  }

  lemma SecondCycle(k: Lookup, now: Store, nextRows: seq<StyleRow>, m: Masters)
    requires k == Lookup([SeasonRow(1, "AW25")], map[], map[]) && Listed(nextRows, now)
    requires nextRows == [StyleRow(2, 1, "L"), StyleRow(1, 1, "L")]
    requires 2 in now.styles && now.styles[2] == OneField("A-2", None)
    ensures !Quiet([SharedKeySource()], k, now, nextRows, m)
  {
    var src := SharedKeySource();
    assert ExistingOf(src, k, nextRows) == Some(2);
    OneVerification(src, k, now, nextRows, m, 2);
    var last := now.(styles := now.styles[2 := now.styles[2].(fields := src.fields)]);
    assert now.styles[2] != last.styles[2];
  }

  /**
   Two styles under one key, with style numbers of their own: read in another order, the second
   cycle writes again.
   */
  lemma SharedKeyBreaksIdempotence(m: Masters)
    returns (src: Source, k: Lookup, s: Store, rows: seq<StyleRow>, now: Store, nextRows: seq<StyleRow>)
    ensures Valid(s) && WellFormed([src], k) && Listed(rows, s) && Finishes([src], k, s, rows, m, now)
    ensures Listed(nextRows, now) && !Quiet([src], k, now, nextRows, m)
  {
    src, k, s := SharedKeySource(), Lookup([SeasonRow(1, "AW25")], map[], map[]), SharedKeyTables();
    rows, nextRows := TwoStyles(s);
    now := FirstCycle(k, rows, m);
    var _, _ := TwoStyles(now);
    SecondCycle(k, now, nextRows, m);
    ValidTables();
  }

  lemma ValidTables()
    ensures Valid(SharedKeyTables())
  {
  }
}
