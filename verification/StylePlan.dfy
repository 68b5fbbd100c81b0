/**
 Planning styles from their sources, and the whole cycle of planning and applying
 (apps/api/src/cli/historical-import-style-prep.ts:262-426).
 */
module StylePlan {
  import opened Prelude
  import opened StylePrep

  /** One record per required identity, as reconcileMrp gives it, with the fields derived for it. */
  datatype Source = Source(
    season: string, lmix: string, resolved: bool, number: string, name: Option<string>, mrp: Option<real>,
    cost: Option<real>, fields: Fields, sizeCodes: seq<string>, factory: Option<string>)

  datatype SeasonRow = SeasonRow(id: nat, code: string)

  datatype StyleRow = StyleRow(id: nat, season: nat, lmix: string)

  /** Master data: `sizes` and `factories` are the active ones a source text leads to, approved mappings included. */
  datatype Lookup = Lookup(seasons: seq<SeasonRow>, sizes: map<string, nat>, factories: map<string, nat>)

  /** What a Map filled from the rows returns: the last row with a code. */
  function SeasonId(seasons: seq<SeasonRow>, code: string): (id: Option<nat>)
    ensures id.Some? ==> SeasonRow(id.value, code) in seasons
  {
    if seasons == [] then None
    else if seasons[|seasons| - 1].code == code then Some(seasons[|seasons| - 1].id)
    else SeasonId(seasons[..|seasons| - 1], code)
  }

  function FindStyle(rows: seq<StyleRow>, season: nat, lmix: string): (id: Option<nat>)
    ensures id.Some? ==> StyleRow(id.value, season, lmix) in rows
    ensures id.None? ==> forall r <- rows :: r.season != season || r.lmix != lmix
  {
    if rows == [] then None
    else if rows[0].season == season && rows[0].lmix == lmix then Some(rows[0].id)
    else FindStyle(rows[1..], season, lmix)
  }

  function PlanSize(code: string, k: Lookup, s: Store, existing: Option<nat>): SizeEntry {
    if code !in k.sizes then SizeEntry(Blocked, None)
    else
      var mapped := existing.Some? && (existing.value, k.sizes[code]) in s.sizes;
      SizeEntry(if mapped then VerifyExisting else Create, Some(k.sizes[code]))
  }

  function PlanSizes(codes: seq<string>, k: Lookup, s: Store, existing: Option<nat>): (sizes: seq<SizeEntry>)
    ensures |sizes| == |codes| && forall i | 0 <= i < |codes| :: sizes[i] == PlanSize(codes[i], k, s, existing)
  {
    seq(|codes|, i requires 0 <= i < |codes| => PlanSize(codes[i], k, s, existing))
  }

  function PlanFactory(src: Source, k: Lookup, s: Store, existing: Option<nat>): Option<FactoryEntry> {
    if src.factory.None? || src.factory.value == "" then None
    else if src.factory.value !in k.factories then Some(FactoryEntry(Blocked, None, None))
    else
      var f := k.factories[src.factory.value];
      if existing.Some? && (existing.value, f) in s.rates then
        var rate := s.rates[(existing.value, f)];
        if src.cost.Some? && rate != src.cost.value then Some(FactoryEntry(Skipped, Some(f), src.cost))
        else Some(FactoryEntry(VerifyExisting, Some(f), Some(rate)))
      else if src.cost.Some? then Some(FactoryEntry(Create, Some(f), src.cost))
      else Some(FactoryEntry(Skipped, Some(f), None))
  }

  function ExistingOf(src: Source, k: Lookup, rows: seq<StyleRow>): Option<nat> {
    var season := SeasonId(k.seasons, src.season);
    if season.None? then None else FindStyle(rows, season.value, src.lmix)
  }

  function PlanEntry(src: Source, k: Lookup, s: Store, rows: seq<StyleRow>): Entry {
    var season, existing := SeasonId(k.seasons, src.season), ExistingOf(src, k, rows);
    if !src.resolved then
      Entry(Blocked, existing, src.number, src.name, None, season, src.lmix, src.fields, [], None)
    else if season.None? then
      Entry(Blocked, None, src.number, src.name, src.mrp, None, src.lmix, src.fields, [], None)
    else
      Entry(
        if existing.Some? then VerifyExisting else Create, existing, src.number, src.name, src.mrp, season, src.lmix,
        src.fields, PlanSizes(src.sizeCodes, k, s, existing), PlanFactory(src, k, s, existing))
  }

  function PlanOf(sources: seq<Source>, k: Lookup, s: Store, rows: seq<StyleRow>): (plan: seq<Entry>)
    ensures |plan| == |sources| && forall i | 0 <= i < |sources| :: plan[i] == PlanEntry(sources[i], k, s, rows)
  {
    seq(|sources|, i requires 0 <= i < |sources| => PlanEntry(sources[i], k, s, rows))
  }

  /** The loop of planStyles. */
  method PlanStyles(sources: seq<Source>, k: Lookup, s: Store, rows: seq<StyleRow>) returns (plan: seq<Entry>)
    ensures plan == PlanOf(sources, k, s, rows)
  {
    plan := [];
    for n := 0 to |sources|
      invariant |plan| == n && forall i | 0 <= i < n :: plan[i] == PlanEntry(sources[i], k, s, rows)
    {
      plan := plan + [PlanEntry(sources[n], k, s, rows)];
    }
  }

  datatype Identity = Identity(season: string, lmix: string)

  /** `x` is named in the records before `y` is. */
  predicate NamedBefore(records: seq<Identity>, x: Identity, y: Identity) {
    exists n | 0 <= n < |records| :: records[n] == x && forall m | 0 <= m <= n :: records[m] != y
  }

  lemma StillBefore(records: seq<Identity>, r: Identity)
    ensures forall x, y | NamedBefore(records, x, y) :: NamedBefore(records + [r], x, y)
    ensures forall x | x in records && r !in records :: NamedBefore(records + [r], x, r)
  {
    var all := records + [r];
    forall x, y | NamedBefore(records, x, y) ensures NamedBefore(all, x, y) {
      var n :| 0 <= n < |records| && records[n] == x && forall m | 0 <= m <= n :: records[m] != y;
      assert all[n] == x && forall m | 0 <= m <= n :: all[m] == records[m];
    }
    forall x | x in records && r !in records ensures NamedBefore(all, x, r) {
      var n :| 0 <= n < |records| && records[n] == x;
      assert all[n] == x && forall m | 0 <= m <= n :: all[m] == records[m] && records[m] in records;
    }
  }

  /** buildRequiredIdentities: each identity the records name, once, in order of appearance. */
  method RequiredIdentities(records: seq<Identity>) returns (identities: seq<Identity>)
    ensures forall i, j | 0 <= i < j < |identities| :: identities[i] != identities[j]
    ensures forall x :: x in identities <==> x in records && x.season != "" && x.lmix != ""
    ensures forall i, j | 0 <= i < j < |identities| :: NamedBefore(records, identities[i], identities[j])
  {
    identities := [];
    for n := 0 to |records|
      invariant forall i, j | 0 <= i < j < |identities| :: identities[i] != identities[j]
      invariant forall x :: x in identities <==> x in records[..n] && x.season != "" && x.lmix != ""
      invariant forall i, j | 0 <= i < j < |identities| :: NamedBefore(records[..n], identities[i], identities[j])
    {
      var r := records[n];
      assert records[..n + 1] == records[..n] + [r];
      StillBefore(records[..n], r);
      if r.season != "" && r.lmix != "" && r !in identities {
        identities := identities + [r];
      }
    }
    assert records[..|records|] == records;
  }

  // ---------------------------------------------------------------------------
  // Fresh plans
  // ---------------------------------------------------------------------------

  /** One source per identity, and season ids that are unique. */
  ghost predicate WellFormed(sources: seq<Source>, k: Lookup) {
    && (forall i, j | 0 <= i < j < |sources| ::
          (sources[i].season, sources[i].lmix) != (sources[j].season, sources[j].lmix))
    && (forall a, b | a in k.seasons && b in k.seasons && a.id == b.id :: a == b)
  }

  /** The rows list the styles of the table. */
  ghost predicate Listed(rows: seq<StyleRow>, s: Store) {
    forall r :: r in rows <==> r.id in s.styles && s.styles[r.id].season == r.season && s.styles[r.id].lmix == r.lmix
  }

  lemma ExistingMeans(src: Source, k: Lookup, s: Store, rows: seq<StyleRow>)
    requires Listed(rows, s)
    ensures var season, existing := SeasonId(k.seasons, src.season), ExistingOf(src, k, rows);
            && (existing.Some? ==>
                  && season.Some? && existing.value in s.styles
                  && s.styles[existing.value].season == season.value && s.styles[existing.value].lmix == src.lmix)
            && (existing.None? && season.Some? ==>
                  forall id <- s.styles :: s.styles[id].season != season.value || s.styles[id].lmix != src.lmix)
  {
    var season, existing := SeasonId(k.seasons, src.season), ExistingOf(src, k, rows);
    if existing.None? && season.Some? {
      forall id <- s.styles ensures s.styles[id].season != season.value || s.styles[id].lmix != src.lmix {
        assert StyleRow(id, s.styles[id].season, s.styles[id].lmix) in rows;
      }
    }
  }

  /** The planner never plans two entries for one style, and only names styles that exist. */
  lemma FreshPlanIsOneEntryPerStyle(sources: seq<Source>, k: Lookup, s: Store, rows: seq<StyleRow>)
    requires WellFormed(sources, k) && Listed(rows, s)
    ensures OneEntryPerStyle(PlanOf(sources, k, s, rows))
    ensures forall e <- PlanOf(sources, k, s, rows) | e.existing.Some? :: e.existing.value in s.styles
  {
    var plan := PlanOf(sources, k, s, rows);
    forall i, j | 0 <= i < j < |plan| && Verifies(plan[i]) && Verifies(plan[j])
      ensures plan[i].existing != plan[j].existing
    {
      ExistingMeans(sources[i], k, s, rows);
      ExistingMeans(sources[j], k, s, rows);
      var a, b := SeasonId(k.seasons, sources[i].season), SeasonId(k.seasons, sources[j].season);
      assert SeasonRow(a.value, sources[i].season) in k.seasons && SeasonRow(b.value, sources[j].season) in k.seasons;
    }
    forall e <- plan | e.existing.Some? ensures e.existing.value in s.styles {
      var i :| 0 <= i < |plan| && plan[i] == e;
      ExistingMeans(sources[i], k, s, rows);
    }
  }

  /** The style a creating entry makes: its key, its fields and exactly the mappings the entry asks for. */
  ghost predicate BuiltAs(s: Store, id: nat, e: Entry) {
    && id in s.styles && e.season.Some?
    && s.styles[id] == Style(e.number, e.season.value, e.lmix, e.fields)
    && (forall z: nat :: (id, z) in s.sizes <==> exists size <- e.sizes :: Wants(size, z))
    && (forall f: nat :: RateOf(s, id, f) == WantedRate(e.factory, f))
  }

  lemma EntryBuilds(r: Run, m: Masters, read: map<nat, Fields>, e: Entry)
    requires Valid(r.store) && Builds(e) && !ApplyEntry(r, m, read, e).halted
    ensures BuiltAs(ApplyEntry(r, m, read, e).store, r.store.nextId, e)
  {
    var c, id := CreateStyle(r, m, e), r.store.nextId;
    MappingsOnlyAdd(c, m, id, e);
    MappingsExactly(c, m, id, e);
    assert forall z: nat :: (id, z) !in c.store.sizes;
    assert forall f: nat :: RateOf(c.store, id, f) == None;
  }

  lemma BuiltStays(r: Run, m: Masters, read: map<nat, Fields>, e: Entry, id: nat, built: Entry)
    requires Valid(r.store) && BuiltAs(r.store, id, built) && !ApplyEntry(r, m, read, e).halted
    requires Verifies(e) ==> e.existing != Some(id)
    ensures BuiltAs(ApplyEntry(r, m, read, e).store, id, built)
  {
    MappingsAfterEntry(r, m, read, e, id);
    if Verifies(e) {
      MappingsOnlyAdd(VerifyStyle(r, read, e), m, e.existing.value, e);
    } else if Builds(e) {
      MappingsOnlyAdd(CreateStyle(r, m, e), m, r.store.nextId, e);
    }
  }

  lemma BuiltIsPresent(s: Store, id: nat, e: Entry)
    requires BuiltAs(s, id, e)
    ensures MappingsPresent(s, id, e)
  {
    forall size <- e.sizes ensures SizePresent(s, id, size) {
      assert size.action != Blocked && size.target.Some? ==> Wants(size, size.target.value);
    }
    if e.factory.Some? && e.factory.value.factory.Some? {
      assert RateOf(s, id, e.factory.value.factory.value) == WantedRate(e.factory, e.factory.value.factory.value);
    }
  }

  lemma {:induction false} CreatedStyleIsBuilt(s: Store, m: Masters, read: map<nat, Fields>, plan: seq<Entry>, at: nat)
    returns (id: nat)
    requires Valid(s) && at < |plan| && Builds(plan[at]) && !ApplyAll(s, m, read, plan).halted
    requires forall e <- plan :: ReadAt(s, read, e) && (e.existing.Some? ==> e.existing.value in s.styles)
    ensures id !in s.styles && BuiltAs(ApplyAll(s, m, read, plan).store, id, plan[at])
  {
    var n := |plan| - 1;
    var r := ApplyAll(s, m, read, plan[..n]);
    RunKeeps(s, m, read, plan[..n]);
    assert plan[n] in plan;
    if at == n {
      id := r.store.nextId;
      EntryBuilds(r, m, read, plan[n]);
    } else {
      id := CreatedStyleIsBuilt(s, m, read, plan[..n], at);
      BuiltStays(r, m, read, plan[n], id, plan[at]);
    }
  }

  // ---------------------------------------------------------------------------
  // What a fresh plan does to the style of one source
  // ---------------------------------------------------------------------------

  predicate Names(src: Source, k: Lookup, z: nat) {
    exists code <- src.sizeCodes :: code in k.sizes && k.sizes[code] == z
  }

  /** The rate the source gives for a factory. */
  function GivenRate(src: Source, k: Lookup, f: nat): Option<real> {
    if && src.factory.Some? && src.factory.value != ""
       && src.factory.value in k.factories && k.factories[src.factory.value] == f
    then src.cost else None
  }

  lemma WantedSizes(src: Source, k: Lookup, s: Store, existing: Option<nat>, z: nat)
    ensures (exists size <- PlanSizes(src.sizeCodes, k, s, existing) :: Wants(size, z)) <==> Names(src, k, z)
  {
    var sizes := PlanSizes(src.sizeCodes, k, s, existing);
    if size :| size in sizes && Wants(size, z) {
      var i :| 0 <= i < |sizes| && sizes[i] == size;
      assert src.sizeCodes[i] in src.sizeCodes;
    }
    if Names(src, k, z) {
      var code :| code in src.sizeCodes && code in k.sizes && k.sizes[code] == z;
      var i :| 0 <= i < |src.sizeCodes| && src.sizeCodes[i] == code;
      assert sizes[i] in sizes && Wants(sizes[i], z);
    }
  }

  lemma WantedRates(src: Source, k: Lookup, s: Store, existing: Option<nat>, id: nat, f: nat)
    requires existing == Some(id) || (existing == None && RateOf(s, id, f) == None)
    ensures FirstOf(RateOf(s, id, f), WantedRate(PlanFactory(src, k, s, existing), f))
            == FirstOf(RateOf(s, id, f), GivenRate(src, k, f))
  {
  }

  /** The style has its old values and the source's in the gaps: fields, sizes, and the rate of each factory. */
  ghost predicate GapsFilled(s: Store, now: Store, id: nat, src: Source, k: Lookup) {
    && id in now.styles && SeasonId(k.seasons, src.season) == Some(now.styles[id].season)
    && now.styles[id].lmix == src.lmix
    && now.styles[id].fields == MergedFields(FieldsOf(s, id), src.fields)
    && (forall z: nat :: (id, z) in now.sizes <==> (id, z) in s.sizes || Names(src, k, z))
    && (forall f: nat :: RateOf(now, id, f) == FirstOf(RateOf(s, id, f), GivenRate(src, k, f)))
  }

  lemma MappedFillsGaps(src: Source, k: Lookup, s: Store, existing: Option<nat>, now: Store, id: nat, e: Entry)
    requires e.sizes == PlanSizes(src.sizeCodes, k, s, existing) && e.factory == PlanFactory(src, k, s, existing)
    requires existing == Some(id) || (existing == None && forall f: nat :: RateOf(s, id, f) == None)
    requires MappedExactly(s, now, id, e) && id in now.styles
    requires now.styles[id].lmix == src.lmix && SeasonId(k.seasons, src.season) == Some(now.styles[id].season)
    requires now.styles[id].fields == MergedFields(FieldsOf(s, id), src.fields)
    ensures GapsFilled(s, now, id, src, k)
  {
    forall z: nat ensures (id, z) in now.sizes <==> (id, z) in s.sizes || Names(src, k, z) {
      WantedSizes(src, k, s, existing, z);
    }
    forall f: nat ensures RateOf(now, id, f) == FirstOf(RateOf(s, id, f), GivenRate(src, k, f)) {
      WantedRates(src, k, s, existing, id, f);
    }
  }

  lemma NewStyleIsMapped(s: Store, now: Store, id: nat, e: Entry)
    requires Valid(s) && id !in s.styles && BuiltAs(now, id, e)
    ensures MappedExactly(s, now, id, e) && forall f: nat :: RateOf(s, id, f) == None
  {
    assert forall z: nat :: (id, z) !in s.sizes;
  }

  /**
   A finished run of a fresh plan fills the gaps of the style of each source, found or
   created, and changes nothing else about it.
   */
  lemma FreshRunFillsGaps(sources: seq<Source>, k: Lookup, s: Store, rows: seq<StyleRow>, m: Masters, i: nat)
    returns (id: nat)
    requires Valid(s) && WellFormed(sources, k) && Listed(rows, s) && i < |sources|
    requires var plan := PlanOf(sources, k, s, rows);
             && Applied(s, m, plan).Some? && !Applied(s, m, plan).value.halted
             && (Verifies(plan[i]) || Builds(plan[i]))
    ensures GapsFilled(s, Applied(s, m, PlanOf(sources, k, s, rows)).value.store, id, sources[i], k)
  {
    var plan, src := PlanOf(sources, k, s, rows), sources[i];
    var e, existing, now := plan[i], ExistingOf(src, k, rows), Applied(s, m, plan).value.store;
    ExistingMeans(src, k, s, rows);
    FreshPlanIsOneEntryPerStyle(sources, k, s, rows);
    if Verifies(e) {
      id := existing.value;
      NothingIsOverwritten(s, m, plan);
      ReportIsExact(s, m, plan, i);
      NamedMappingsExact(s, m, Snapshot(s, plan), plan, i);
    } else {
      id := CreatedStyleIsBuilt(s, m, Snapshot(s, plan), plan, i);
      NewStyleIsMapped(s, now, id, e);
    }
    MappedFillsGaps(src, k, s, existing, now, id, e);
  }
}
