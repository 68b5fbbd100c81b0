/**
 Planning and applying styles, entry by entry, in terms of the sources, the plan and the
 tables alone (apps/api/src/cli/historical-import-style-prep.ts:283-650).
 */
module StyleRules {
  import opened Prelude
  import opened StylePrep
  import opened StylePlan

  // ---------------------------------------------------------------------------
  // What is planned
  // ---------------------------------------------------------------------------

  /** The last season with the code has this id. */
  predicate SeasonOf(k: Lookup, code: string, id: nat) {
    exists n | 0 <= n < |k.seasons| ::
      k.seasons[n] == SeasonRow(id, code) && forall m | n < m < |k.seasons| :: k.seasons[m].code != code
  }

  predicate SeasonKnown(k: Lookup, code: string) {
    exists n | 0 <= n < |k.seasons| :: k.seasons[n].code == code
  }

  /** The last of the seasons with the code, if there is one, has this id. */
  predicate LastSeason(seasons: seq<SeasonRow>, code: string, id: Option<nat>) {
    match id
    case None => forall n | 0 <= n < |seasons| :: seasons[n].code != code
    case Some(id) =>
      exists n | 0 <= n < |seasons| ::
        seasons[n] == SeasonRow(id, code) && forall m | n < m < |seasons| :: seasons[m].code != code
  }

  lemma OneMoreSeason(seasons: seq<SeasonRow>, last: SeasonRow, code: string, id: Option<nat>)
    requires LastSeason(seasons, code, id)
    ensures LastSeason(seasons + [last], code, if last.code == code then Some(last.id) else id)
  {
    var all := seasons + [last];
    assert forall n | 0 <= n < |seasons| :: all[n] == seasons[n];
    if last.code == code {
      assert all[|seasons|] == SeasonRow(last.id, code);
    } else if id.Some? {
      var n :| 0 <= n < |seasons| && seasons[n] == SeasonRow(id.value, code)
               && forall m | n < m < |seasons| :: seasons[m].code != code;
      assert all[n] == SeasonRow(id.value, code);
    }
  }

  lemma {:induction false} SeasonExactly(seasons: seq<SeasonRow>, code: string)
    ensures LastSeason(seasons, code, SeasonId(seasons, code))
  {
    if seasons != [] {
      var n := |seasons| - 1;
      SeasonExactly(seasons[..n], code);
      OneMoreSeason(seasons[..n], seasons[n], code, SeasonId(seasons[..n], code));
      assert seasons == seasons[..n] + [seasons[n]];
    }
  }

  /** The first listed style with the season and LMIX number has this id. */
  predicate StyleFound(rows: seq<StyleRow>, season: nat, lmix: string, id: nat) {
    exists n | 0 <= n < |rows| ::
      rows[n] == StyleRow(id, season, lmix) && forall m | 0 <= m < n :: rows[m].season != season || rows[m].lmix != lmix
  }

  lemma {:induction false} StyleExactly(rows: seq<StyleRow>, season: nat, lmix: string)
    ensures match FindStyle(rows, season, lmix)
            case None => forall n | 0 <= n < |rows| :: rows[n].season != season || rows[n].lmix != lmix
            case Some(id) => StyleFound(rows, season, lmix, id)
  {
    if rows != [] {
      if rows[0].season == season && rows[0].lmix == lmix {
        assert rows[0] == StyleRow(rows[0].id, season, lmix);
      } else {
        StyleExactly(rows[1..], season, lmix);
        assert forall n | 1 <= n < |rows| :: rows[n] == rows[1..][n - 1];
        if FindStyle(rows[1..], season, lmix).Some? {
          var id := FindStyle(rows[1..], season, lmix).value;
          var n :| 0 <= n < |rows[1..]| && rows[1..][n] == StyleRow(id, season, lmix)
                   && forall m | 0 <= m < n :: rows[1..][m].season != season || rows[1..][m].lmix != lmix;
          assert rows[n + 1] == StyleRow(id, season, lmix);
        }
      }
    }
  }

  /** What is planned for one size code of a style that is found, or not. */
  predicate SizePlanned(code: string, k: Lookup, s: Store, existing: Option<nat>, size: SizeEntry) {
    if code !in k.sizes then size == SizeEntry(Blocked, None)
    else
      && size.target == Some(k.sizes[code])
      && size.action == if existing.Some? && (existing.value, k.sizes[code]) in s.sizes then VerifyExisting else Create
  }

  /** What is planned for the factory: an agreed rate is verified, another one never replaced, a missing one created. */
  predicate FactoryPlanned(src: Source, k: Lookup, s: Store, existing: Option<nat>, f: Option<FactoryEntry>) {
    if src.factory == None || src.factory == Some("") then f == None
    else if src.factory.value !in k.factories then f == Some(FactoryEntry(Blocked, None, None))
    else
      var id := k.factories[src.factory.value];
      && f.Some? && f.value.factory == Some(id)
      && if existing.Some? && (existing.value, id) in s.rates then
           var rate := s.rates[(existing.value, id)];
           if src.cost == None || src.cost == Some(rate)
           then f.value.action == VerifyExisting && f.value.price == Some(rate)
           else f.value.action == Skipped && f.value.price == src.cost
         else f.value.action == (if src.cost.Some? then Create else Skipped) && f.value.price == src.cost
  }

  /**
   The plan of one source. It is blocked while its price is unresolved or its season is not
   there; otherwise it verifies the style found under its season and LMIX number, or else
   creates one, with the sizes and the factory of the source.
   */
  lemma PlannedExactly(src: Source, k: Lookup, s: Store, rows: seq<StyleRow>)
    ensures var e := PlanEntry(src, k, s, rows);
            && e.number == src.number && e.name == src.name && e.lmix == src.lmix && e.fields == src.fields
            && (e.action == Blocked <==> !src.resolved || !SeasonKnown(k, src.season))
            && (e.action == Blocked ==> e.sizes == [] && e.factory == None)
            && (e.season.Some? <==> SeasonKnown(k, src.season))
            && (e.season.Some? ==> SeasonOf(k, src.season, e.season.value))
            && (e.existing.Some? ==> e.season.Some? && StyleFound(rows, e.season.value, src.lmix, e.existing.value))
            && (e.existing.None? && e.season.Some? ==>
                  forall n | 0 <= n < |rows| :: rows[n].season != e.season.value || rows[n].lmix != src.lmix)
            && (e.action != Blocked ==>
                  && e.action == (if e.existing.Some? then VerifyExisting else Create) && e.mrp == src.mrp
                  && |e.sizes| == |src.sizeCodes|
                  && (forall n | 0 <= n < |src.sizeCodes| ::
                        SizePlanned(src.sizeCodes[n], k, s, e.existing, e.sizes[n]))
                  && FactoryPlanned(src, k, s, e.existing, e.factory))
  {
    SeasonExactly(k.seasons, src.season);
    var season := SeasonId(k.seasons, src.season);
    if season.Some? {
      StyleExactly(rows, season.value, src.lmix);
      assert SeasonKnown(k, src.season);
    }
  }

  // ---------------------------------------------------------------------------
  // What an entry does
  // ---------------------------------------------------------------------------

  /** The entry is about the style it names. */
  predicate NamesStyle(e: Entry) {
    e.action == VerifyExisting && e.existing.Some?
  }

  /** The entry says enough for a style to be created: a name, a price and a season. */
  predicate Complete(e: Entry) {
    && e.name.Some? && |e.name.value| > 0 && e.mrp.Some? && (e.mrp.value > 0.0 || e.mrp.value < 0.0) && e.season.Some?
  }

  predicate NumberUsed(s: Store, number: string) {
    exists id <- s.styles :: s.styles[id].number == number
  }

  /** The one gap in the fields read that the entry fills, if it fills one. */
  predicate FillsGap(previous: Fields, proposed: Fields) {
    || (previous.category.None? && proposed.category.Some?)
    || (previous.hsn.None? && proposed.hsn.Some?)
    || (previous.hsnDescription.None? && proposed.hsnDescription.Some?)
  }

  function ReadFields(read: map<nat, Fields>, id: nat): Fields {
    if id in read then read[id] else Fields(None, None, None)
  }

  /** A service call for the style itself throws. */
  predicate StyleFails(s: Store, m: Masters, read: map<nat, Fields>, e: Entry) {
    if NamesStyle(e)
    then FillsGap(ReadFields(read, e.existing.value), e.fields) && e.existing.value !in s.styles
    else Complete(e) && (e.season.value !in m.seasons || NumberUsed(s, e.number))
  }

  /** One of the sizes cannot be added to the style. */
  predicate SizeFails(s: Store, m: Masters, id: nat, sizes: seq<SizeEntry>) {
    exists n | 0 <= n < |sizes| ::
      && sizes[n].action != Blocked && sizes[n].target.Some? && (id, sizes[n].target.value) !in s.sizes
      && (id !in s.styles || sizes[n].target.value !in m.sizes)
  }

  /** The factory cannot be added to the style. */
  predicate FactoryFails(s: Store, m: Masters, id: nat, f: Option<FactoryEntry>) {
    && f.Some? && f.value.factory.Some? && f.value.action == Create && f.value.price.Some?
    && (id, f.value.factory.value) !in s.rates && (id !in s.styles || f.value.factory.value !in m.factories)
  }

  lemma {:induction false} SizesFailExactly(r: Run, m: Masters, id: nat, sizes: seq<SizeEntry>)
    requires !r.halted
    ensures AddSizes(r, m, id, sizes).halted <==> SizeFails(r.store, m, id, sizes)
  {
    if sizes != [] {
      var n := |sizes| - 1;
      var before := AddSizes(r, m, id, sizes[..n]);
      SizesFailExactly(r, m, id, sizes[..n]);
      SizesOnlyAdd(r, m, id, sizes[..n]);
      assert forall k | 0 <= k < n :: sizes[..n][k] == sizes[k];
      if !before.halted && sizes[n].target.Some? {
        SizesExactly(r, m, id, sizes[..n], (id, sizes[n].target.value));
        EarlierSizeUsable(r.store, m, id, sizes, n);
      }
    }
  }

  /** A size that an earlier entry has added could be added. */
  lemma EarlierSizeUsable(s: Store, m: Masters, id: nat, sizes: seq<SizeEntry>, n: nat)
    requires n < |sizes| && sizes[n].target.Some? && !SizeFails(s, m, id, sizes[..n])
    ensures (exists size <- sizes[..n] :: Wants(size, sizes[n].target.value)) ==>
              || (id, sizes[n].target.value) in s.sizes
              || (id in s.styles && sizes[n].target.value in m.sizes)
  {
    if size :| size in sizes[..n] && Wants(size, sizes[n].target.value) {
      var k :| 0 <= k < n && sizes[..n][k] == size;
    }
  }

  lemma MappingsFailExactly(r: Run, m: Masters, id: nat, e: Entry)
    requires !r.halted
    ensures AddMappings(r, m, id, e).halted <==>
              SizeFails(r.store, m, id, e.sizes) || FactoryFails(r.store, m, id, e.factory)
  {
    SizesFailExactly(r, m, id, e.sizes);
    SizesOnlyAdd(r, m, id, e.sizes);
  }

  lemma SameSizeFails(a: Store, b: Store, m: Masters, id: nat, sizes: seq<SizeEntry>)
    requires a.sizes == b.sizes && (id in a.styles <==> id in b.styles)
    ensures SizeFails(a, m, id, sizes) <==> SizeFails(b, m, id, sizes)
  {
  }

  /** When an entry that names a style stops the run, and what it reports otherwise. */
  lemma VerifyExactly(r: Run, m: Masters, read: map<nat, Fields>, e: Entry)
    requires !r.halted && NamesStyle(e)
    ensures var after, id := ApplyEntry(r, m, read, e), e.existing.value;
            && (after.halted <==>
                  || StyleFails(r.store, m, read, e) || SizeFails(r.store, m, id, e.sizes)
                  || FactoryFails(r.store, m, id, e.factory))
            && after.verified == r.verified + [id] && after.created == r.created && after.blocked == r.blocked
            && (!StyleFails(r.store, m, read, e) ==>
                  after.details == r.details + [Detail(id, ReadFields(read, id), e.fields)])
  {
    var v, id := VerifyStyle(r, read, e), e.existing.value;
    MappingsOnlyAdd(v, m, id, e);
    if !v.halted {
      MappingsFailExactly(v, m, id, e);
      SameSizeFails(r.store, v.store, m, id, e.sizes);
    }
  }

  /** When any other entry that is not blocked creates a style, stops the run, or is blocked after all. */
  lemma CreateExactly(r: Run, m: Masters, read: map<nat, Fields>, e: Entry)
    requires !r.halted && e.action != Blocked && !NamesStyle(e)
    requires Valid(r.store)
    ensures var after, id := ApplyEntry(r, m, read, e), r.store.nextId;
            && (!Complete(e) ==> after == r.(blocked := r.blocked + 1))
            && (Complete(e) ==>
                  && (after.halted <==>
                        || StyleFails(r.store, m, read, e)
                        || (exists n | 0 <= n < |e.sizes| ::
                              && e.sizes[n].action != Blocked && e.sizes[n].target.Some?
                              && e.sizes[n].target.value !in m.sizes)
                        || (&& e.factory.Some? && e.factory.value.factory.Some? && e.factory.value.action == Create
                            && e.factory.value.price.Some? && e.factory.value.factory.value !in m.factories))
                  && (StyleFails(r.store, m, read, e) ==> after == r.(halted := true))
                  && (!StyleFails(r.store, m, read, e) ==>
                        && after.created == r.created + [id] && after.verified == r.verified
                        && after.blocked == r.blocked
                        && after.details == r.details + [Detail(id, Fields(None, None, None), e.fields)]
                        && id in after.store.styles && after.store.nextId == id + 1
                        && after.store.styles[id] == Style(e.number, e.season.value, e.lmix, e.fields)))
  {
    if Complete(e) {
      assert Creatable(e);
      var c, id := CreateStyle(r, m, e), r.store.nextId;
      if !c.halted {
        MappingsOnlyAdd(c, m, id, e);
        MappingsFailExactly(c, m, id, e);
        assert forall key <- r.store.sizes :: key.0 != id;
        assert forall key <- r.store.rates :: key.0 != id;
      }
    }
  }

  /** A blocked entry is counted and does nothing. */
  lemma BlockedExactly(r: Run, m: Masters, read: map<nat, Fields>, e: Entry)
    requires !r.halted && e.action == Blocked
    ensures ApplyEntry(r, m, read, e) == r.(blocked := r.blocked + 1)
  {
  }

  // ---------------------------------------------------------------------------
  // The counters
  // ---------------------------------------------------------------------------

  /** Every counter of additions is the growth of its table. */
  ghost predicate Counted(s: Store, r: Run) {
    && |r.store.styles.Keys| == |s.styles.Keys| + |r.created|
    && |r.store.sizes| == |s.sizes| + r.sizesCreated
    && |r.store.rates.Keys| == |s.rates.Keys| + r.ratesCreated
  }

  /** How many of the sizes are usable. */
  function Usable(sizes: seq<SizeEntry>): nat {
    if sizes == [] then 0
    else
      var last := sizes[|sizes| - 1];
      Usable(sizes[..|sizes| - 1]) + if last.action != Blocked && last.target.Some? then 1 else 0
  }

  lemma OneMoreElement<T>(all: set<T>, x: T)
    requires x !in all
    ensures |all + {x}| == |all| + 1
  {
  }

  lemma SizeCounted(s: Store, r: Run, m: Masters, id: nat, size: SizeEntry)
    requires Counted(s, r)
    ensures var after := AddSize(r, m, id, size);
            && Counted(s, after)
            && (!r.halted && !after.halted ==>
                  after.sizesCreated + after.sizesVerified ==
                  r.sizesCreated + r.sizesVerified + if size.action != Blocked && size.target.Some? then 1 else 0)
  {
    if size.target.Some? && (id, size.target.value) !in r.store.sizes {
      OneMoreElement(r.store.sizes, (id, size.target.value));
    }
  }

  lemma {:induction false} SizesCounted(s: Store, r: Run, m: Masters, id: nat, sizes: seq<SizeEntry>)
    requires Counted(s, r) && !r.halted
    ensures var after := AddSizes(r, m, id, sizes);
            && Counted(s, after)
            && (!after.halted ==>
                  after.sizesCreated + after.sizesVerified == r.sizesCreated + r.sizesVerified + Usable(sizes))
  {
    if sizes != [] {
      var n := |sizes| - 1;
      SizesCounted(s, r, m, id, sizes[..n]);
      SizeCounted(s, AddSizes(r, m, id, sizes[..n]), m, id, sizes[n]);
    }
  }

  lemma FactoryCounted(s: Store, r: Run, m: Masters, id: nat, f: Option<FactoryEntry>)
    requires Counted(s, r)
    ensures Counted(s, AddFactory(r, m, id, f))
  {
    var after := AddFactory(r, m, id, f);
    if after.ratesCreated != r.ratesCreated {
      assert after.store.rates.Keys == r.store.rates.Keys + {(id, f.value.factory.value)};
    }
  }

  /**
   A factory that is given counts as created, verified or skipped, once; it is skipped when it has
   nothing to apply.
   */
  lemma FactoryOutcome(r: Run, m: Masters, id: nat, f: Option<FactoryEntry>)
    requires !r.halted && !AddFactory(r, m, id, f).halted
    ensures var after, given := AddFactory(r, m, id, f), f.Some? && f.value.factory.Some?;
            && after.ratesCreated + after.ratesVerified + after.ratesSkipped ==
                 r.ratesCreated + r.ratesVerified + r.ratesSkipped + (if given then 1 else 0)
            && (after.ratesSkipped > r.ratesSkipped <==>
                  given && f.value.action != VerifyExisting && (f.value.action != Create || f.value.price.None?))
  {
  }

  lemma KeysAfter<T>(m: map<nat, T>, id: nat, value: T)
    ensures m[id := value].Keys == m.Keys + {id}
    ensures id in m ==> m[id := value].Keys == m.Keys
  {
  }

  lemma VerifyCounted(s: Store, r: Run, read: map<nat, Fields>, e: Entry)
    requires Counted(s, r) && NamesStyle(e)
    ensures Counted(s, VerifyStyle(r, read, e))
  {
    var v, id := VerifyStyle(r, read, e), e.existing.value;
    if id in r.store.styles {
      KeysAfter(r.store.styles, id, v.store.styles[id]);
    }
  }

  lemma CreateCounted(s: Store, r: Run, m: Masters, e: Entry)
    requires Counted(s, r) && Valid(r.store) && Creatable(e)
    ensures Counted(s, CreateStyle(r, m, e))
  {
    var c, id := CreateStyle(r, m, e), r.store.nextId;
    if !c.halted {
      KeysAfter(r.store.styles, id, c.store.styles[id]);
    }
  }

  lemma MappingsCounted(s: Store, r: Run, m: Masters, id: nat, e: Entry)
    requires Counted(s, r)
    ensures Counted(s, AddMappings(r, m, id, e))
  {
    if !r.halted {
      SizesCounted(s, r, m, id, e.sizes);
      FactoryCounted(s, AddSizes(r, m, id, e.sizes), m, id, e.factory);
    }
  }

  lemma EntryCounted(s: Store, r: Run, m: Masters, read: map<nat, Fields>, e: Entry)
    requires Counted(s, r) && Valid(r.store)
    ensures Counted(s, ApplyEntry(r, m, read, e))
  {
    if NamesStyle(e) {
      VerifyCounted(s, r, read, e);
      MappingsCounted(s, VerifyStyle(r, read, e), m, e.existing.value, e);
    } else if Creatable(e) {
      CreateCounted(s, r, m, e);
      MappingsCounted(s, CreateStyle(r, m, e), m, r.store.nextId, e);
    }
  }

  /** Over every run, finished or stopped, what it reports as created is exactly what the tables have gained. */
  lemma {:induction false} RunCounted(s: Store, m: Masters, read: map<nat, Fields>, plan: seq<Entry>)
    requires Valid(s) && forall e <- plan :: ReadAt(s, read, e)
    ensures Counted(s, ApplyAll(s, m, read, plan))
  {
    if plan != [] {
      var n := |plan| - 1;
      RunCounted(s, m, read, plan[..n]);
      RunKeeps(s, m, read, plan[..n]);
      EntryCounted(s, ApplyAll(s, m, read, plan[..n]), m, read, plan[n]);
    }
  }
}
