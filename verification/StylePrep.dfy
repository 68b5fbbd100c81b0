/**
 Applying a plan of styles, sizes and factory rates without overwriting anything
 (apps/api/src/cli/historical-import-style-prep.ts:473-650).
 */
module StylePrep {
  import opened Prelude

  datatype Fields = Fields(category: Option<string>, hsn: Option<string>, hsnDescription: Option<string>)

  datatype Style = Style(number: string, season: nat, lmix: string, fields: Fields)

  /** The three tables; `rates` is keyed by style and factory, and `nextId` stands for the id generator. */
  datatype Store = Store(styles: map<nat, Style>, sizes: set<(nat, nat)>, rates: map<(nat, nat), real>, nextId: nat)

  /** The seasons, sizes and factories that exist and are active. */
  datatype Masters = Masters(seasons: set<nat>, sizes: set<nat>, factories: set<nat>)

  datatype Action = Create | VerifyExisting | Skipped | Blocked

  datatype SizeEntry = SizeEntry(action: Action, target: Option<nat>)

  datatype FactoryEntry = FactoryEntry(action: Action, factory: Option<nat>, price: Option<real>)

  datatype Entry = Entry(
    action: Action, existing: Option<nat>, number: string, name: Option<string>, mrp: Option<real>,
    season: Option<nat>, lmix: string, fields: Fields, sizes: seq<SizeEntry>, factory: Option<FactoryEntry>)

  datatype FieldOutcome = Set | AlreadySet | NoSourceValue | Conflict

  function Reconcile(previous: Option<string>, proposed: Option<string>): FieldOutcome {
    if proposed.None? then NoSourceValue
    else if previous.None? then Set
    else if previous == proposed then AlreadySet
    else Conflict
  }

  /** What the run reports about one style: its fields as read up front, and those proposed. */
  datatype Detail = Detail(id: nat, previous: Fields, proposed: Fields)

  /** A run in progress: the tables and the result built so far. `halted` once a service call has thrown. */
  datatype Run = Run(
    store: Store, halted: bool, created: seq<nat>, verified: seq<nat>, blocked: nat, details: seq<Detail>,
    sizesCreated: nat, sizesVerified: nat, ratesCreated: nat, ratesVerified: nat, ratesSkipped: nat)

  const BLANK := Fields(None, None, None)

  function Start(s: Store): Run {
    Run(s, false, [], [], 0, [], 0, 0, 0, 0, 0)
  }

  /** The rows read before the first write: those the plan names that exist. */
  function Snapshot(s: Store, plan: seq<Entry>): (read: map<nat, Fields>)
    ensures forall e <- plan | e.existing.Some? :: FieldsAt(read, e.existing.value) == FieldsOf(s, e.existing.value)
  {
    var ids := set e <- plan | e.existing.Some? :: e.existing.value;
    assert forall e <- plan | e.existing.Some? :: e.existing.value in ids;
    map id <- ids * s.styles.Keys :: s.styles[id].fields
  }

  function FieldsAt(read: map<nat, Fields>, id: nat): Fields {
    if id in read then read[id] else BLANK
  }

  function FieldsOf(s: Store, id: nat): Fields {
    if id in s.styles then s.styles[id].fields else BLANK
  }

  predicate Verifies(e: Entry) {
    e.action == VerifyExisting && e.existing.Some?
  }

  predicate Conflicts(read: map<nat, Fields>, e: Entry) {
    Verifies(e) && Reconcile(FieldsAt(read, e.existing.value).hsnDescription, e.fields.hsnDescription) == Conflict
  }

  predicate Creatable(e: Entry) {
    e.name.Some? && e.name.value != "" && e.mrp.Some? && e.mrp.value != 0.0 && e.season.Some?
  }

  /** The entry asks for a new style. An entry to verify that names no style does too. */
  predicate Builds(e: Entry) {
    e.action != Blocked && !Verifies(e) && Creatable(e)
  }

  predicate NumberTaken(s: Store, number: string) {
    exists id <- s.styles :: s.styles[id].number == number
  }

  function Patched(now: Option<string>, previous: Option<string>, proposed: Option<string>): Option<string> {
    if Reconcile(previous, proposed) == Set then proposed else now
  }

  function PatchedFields(now: Fields, previous: Fields, proposed: Fields): Fields {
    Fields(
      Patched(now.category, previous.category, proposed.category),
      Patched(now.hsn, previous.hsn, proposed.hsn),
      Patched(now.hsnDescription, previous.hsnDescription, proposed.hsnDescription))
  }

  predicate NeedsPatch(previous: Fields, proposed: Fields) {
    || Reconcile(previous.category, proposed.category) == Set
    || Reconcile(previous.hsn, proposed.hsn) == Set
    || Reconcile(previous.hsnDescription, proposed.hsnDescription) == Set
  }

  function VerifyStyle(r: Run, read: map<nat, Fields>, e: Entry): Run
    requires Verifies(e)
  {
    var id := e.existing.value;
    var previous := FieldsAt(read, id);
    var noted := r.(verified := r.verified + [id]);
    if !NeedsPatch(previous, e.fields) then noted.(details := r.details + [Detail(id, previous, e.fields)])
    else if id !in r.store.styles then noted.(halted := true)
    else
      var style := r.store.styles[id];
      var patched := style.(fields := PatchedFields(style.fields, previous, e.fields));
      noted.(store := r.store.(styles := r.store.styles[id := patched]),
             details := r.details + [Detail(id, previous, e.fields)])
  }

  function CreateStyle(r: Run, m: Masters, e: Entry): Run
    requires Creatable(e)
  {
    if e.season.value !in m.seasons || NumberTaken(r.store, e.number) then r.(halted := true)
    else
      var id, style := r.store.nextId, Style(e.number, e.season.value, e.lmix, e.fields);
      r.(store := r.store.(styles := r.store.styles[id := style], nextId := id + 1),
         created := r.created + [id], details := r.details + [Detail(id, BLANK, e.fields)])
  }

  function AddSize(r: Run, m: Masters, id: nat, size: SizeEntry): Run {
    if size.action == Blocked || size.target.None? then r
    else if (id, size.target.value) in r.store.sizes then r.(sizesVerified := r.sizesVerified + 1)
    else if id !in r.store.styles || size.target.value !in m.sizes then r.(halted := true)
    else r.(store := r.store.(sizes := r.store.sizes + {(id, size.target.value)}), sizesCreated := r.sizesCreated + 1)
  }

  function AddSizes(r: Run, m: Masters, id: nat, sizes: seq<SizeEntry>): Run {
    if sizes == [] then r
    else
      var before := AddSizes(r, m, id, sizes[..|sizes| - 1]);
      if before.halted then before else AddSize(before, m, id, sizes[|sizes| - 1])
  }

  function AddFactory(r: Run, m: Masters, id: nat, f: Option<FactoryEntry>): Run {
    if f.None? || f.value.factory.None? then r
    else
      var key := (id, f.value.factory.value);
      if f.value.action == Create && f.value.price.Some? then
        if key in r.store.rates then r.(ratesVerified := r.ratesVerified + 1)
        else if id !in r.store.styles || key.1 !in m.factories then r.(halted := true)
        else
          r.(store := r.store.(rates := r.store.rates[key := f.value.price.value]),
             ratesCreated := r.ratesCreated + 1)
      else if f.value.action == VerifyExisting then r.(ratesVerified := r.ratesVerified + 1)
      else r.(ratesSkipped := r.ratesSkipped + 1)
  }

  function AddMappings(r: Run, m: Masters, id: nat, e: Entry): Run {
    if r.halted then r
    else
      var sized := AddSizes(r, m, id, e.sizes);
      if sized.halted then sized else AddFactory(sized, m, id, e.factory)
  }

  function ApplyEntry(r: Run, m: Masters, read: map<nat, Fields>, e: Entry): Run {
    if r.halted then r
    else if e.action == Blocked then r.(blocked := r.blocked + 1)
    else if Verifies(e) then AddMappings(VerifyStyle(r, read, e), m, e.existing.value, e)
    else if !Creatable(e) then r.(blocked := r.blocked + 1)
    else AddMappings(CreateStyle(r, m, e), m, r.store.nextId, e)
  }

  function ApplyAll(s: Store, m: Masters, read: map<nat, Fields>, plan: seq<Entry>): Run {
    if plan == [] then Start(s)
    else ApplyEntry(ApplyAll(s, m, read, plan[..|plan| - 1]), m, read, plan[|plan| - 1])
  }

  /** Nothing at all if a description disagrees; otherwise the plan, entry by entry. */
  function Applied(s: Store, m: Masters, plan: seq<Entry>): Option<Run> {
    var read := Snapshot(s, plan);
    if exists e <- plan :: Conflicts(read, e) then None else Some(ApplyAll(s, m, read, plan))
  }

  /** The database a run writes to. */
  class StyleTables {
    var run: Run

    constructor (s: Store)
      ensures run == Start(s)
    {
      run := Start(s);
    }

    method AddAllSizes(m: Masters, id: nat, sizes: seq<SizeEntry>)
      requires !run.halted
      modifies this
      ensures run == AddSizes(old(run), m, id, sizes)
    {
      for n := 0 to |sizes|
        invariant run == AddSizes(old(run), m, id, sizes[..n]) && !run.halted
      {
        assert sizes[..n + 1][..n] == sizes[..n];
        run := AddSize(run, m, id, sizes[n]);
        if run.halted {
          HaltedSizesStay(old(run), m, id, sizes[..n + 1], sizes[n + 1..]);
          assert sizes == sizes[..n + 1] + sizes[n + 1..];
          return;
        }
      }
      assert sizes[..|sizes|] == sizes;
    }

    method ApplyOne(m: Masters, read: map<nat, Fields>, e: Entry)
      requires !run.halted
      modifies this
      ensures run == ApplyEntry(old(run), m, read, e)
    {
      if e.action == Blocked {
        run := run.(blocked := run.blocked + 1);
        return;
      }
      var id: nat;
      if Verifies(e) {
        id := e.existing.value;
        run := VerifyStyle(run, read, e);
      } else if !Creatable(e) {
        run := run.(blocked := run.blocked + 1);
        return;
      } else {
        id := run.store.nextId;
        run := CreateStyle(run, m, e);
      }
      if run.halted { return; }
      AddAllSizes(m, id, e.sizes);
      if run.halted { return; }
      run := AddFactory(run, m, id, e.factory);
    }

    /** applyStyles: one read, the conflict check, then every entry in order until a service call throws. */
    method ApplyStyles(m: Masters, plan: seq<Entry>) returns (refused: bool)
      requires run == Start(run.store)
      modifies this
      ensures refused <==> Applied(old(run.store), m, plan) == None
      ensures run == if refused then old(run) else Applied(old(run.store), m, plan).value
    {
      var s := run.store;
      var read := Snapshot(s, plan);
      refused := false;
      for n := 0 to |plan|
        invariant refused <==> exists i | 0 <= i < n :: Conflicts(read, plan[i])
      {
        refused := refused || Conflicts(read, plan[n]);
      }
      assert refused <==> exists e <- plan :: Conflicts(read, e);
      if refused { return; }
      for n := 0 to |plan|
        invariant run == ApplyAll(s, m, read, plan[..n]) && !run.halted
      {
        assert plan[..n + 1][..n] == plan[..n];
        ApplyOne(m, read, plan[n]);
        if run.halted {
          HaltedRunStays(s, m, read, plan[..n + 1], plan[n + 1..]);
          assert plan == plan[..n + 1] + plan[n + 1..];
          return;
        }
      }
      assert plan[..|plan|] == plan;
    }
  }

  lemma {:induction false} HaltedSizesStay(r: Run, m: Masters, id: nat, done: seq<SizeEntry>, rest: seq<SizeEntry>)
    requires AddSizes(r, m, id, done).halted
    ensures AddSizes(r, m, id, done + rest) == AddSizes(r, m, id, done)
    decreases |rest|
  {
    if rest == [] {
      assert done + rest == done;
    } else {
      HaltedSizesStay(r, m, id, done, rest[..|rest| - 1]);
      assert (done + rest)[..|done + rest| - 1] == done + rest[..|rest| - 1];
    }
  }

  lemma {:induction false} HaltedRunStays(
    s: Store, m: Masters, read: map<nat, Fields>, done: seq<Entry>, rest: seq<Entry>)
    requires ApplyAll(s, m, read, done).halted
    ensures ApplyAll(s, m, read, done + rest) == ApplyAll(s, m, read, done)
    decreases |rest|
  {
    if rest == [] {
      assert done + rest == done;
    } else {
      HaltedRunStays(s, m, read, done, rest[..|rest| - 1]);
      assert (done + rest)[..|done + rest| - 1] == done + rest[..|rest| - 1];
    }
  }

  // ---------------------------------------------------------------------------
  // Nothing is overwritten
  // ---------------------------------------------------------------------------

  /** Ids are generated in order, style numbers are unique, and sizes and rates belong to styles that exist. */
  predicate Valid(s: Store) {
    && (forall id <- s.styles :: id < s.nextId)
    && (forall a, b | a in s.styles && b in s.styles && s.styles[a].number == s.styles[b].number :: a == b)
    && (forall key <- s.sizes :: key.0 in s.styles)
    && (forall key <- s.rates :: key.0 in s.styles)
  }

  predicate KeptField(before: Option<string>, after: Option<string>) {
    before.Some? ==> after == before
  }

  predicate KeptFields(before: Fields, after: Fields) {
    && KeptField(before.category, after.category)
    && KeptField(before.hsn, after.hsn)
    && KeptField(before.hsnDescription, after.hsnDescription)
  }

  /** Every style, size and rate is still there; whatever had a value has the same value. */
  ghost predicate Kept(before: Store, after: Store) {
    && (forall id <- before.styles ::
          && id in after.styles
          && after.styles[id] == before.styles[id].(fields := after.styles[id].fields)
          && KeptFields(before.styles[id].fields, after.styles[id].fields))
    && before.sizes <= after.sizes
    && (forall k <- before.rates :: k in after.rates && after.rates[k] == before.rates[k])
    && before.nextId <= after.nextId
  }

  /** The writes of the size and rate loops: style rows stay as they are. */
  ghost predicate OnlyAdds(before: Store, after: Store) {
    && after.styles == before.styles && after.nextId == before.nextId
    && before.sizes <= after.sizes
    && forall k <- before.rates :: k in after.rates && after.rates[k] == before.rates[k]
  }

  lemma {:induction false} SizesOnlyAdd(r: Run, m: Masters, id: nat, sizes: seq<SizeEntry>)
    ensures var after := AddSizes(r, m, id, sizes);
            && OnlyAdds(r.store, after.store) && after.store.rates == r.store.rates
            && after.created == r.created && after.verified == r.verified && after.blocked == r.blocked
            && after.details == r.details && (Valid(r.store) ==> Valid(after.store))
  {
    if sizes != [] {
      SizesOnlyAdd(r, m, id, sizes[..|sizes| - 1]);
    }
  }

  lemma MappingsOnlyAdd(r: Run, m: Masters, id: nat, e: Entry)
    ensures var after := AddMappings(r, m, id, e);
            && OnlyAdds(r.store, after.store)
            && after.created == r.created && after.verified == r.verified && after.blocked == r.blocked
            && after.details == r.details && (Valid(r.store) ==> Valid(after.store))
  {
    SizesOnlyAdd(r, m, id, e.sizes);
  }

  /** The entry's up-front read: what the database held before the run. */
  predicate ReadAt(s: Store, read: map<nat, Fields>, e: Entry) {
    e.existing.Some? ==> FieldsAt(read, e.existing.value) == FieldsOf(s, e.existing.value)
  }

  lemma VerifyKeeps(s: Store, r: Run, read: map<nat, Fields>, e: Entry)
    requires Verifies(e) && Valid(r.store) && Kept(s, r.store) && ReadAt(s, read, e)
    ensures Valid(VerifyStyle(r, read, e).store) && Kept(s, VerifyStyle(r, read, e).store)
  {
  }

  lemma CreateKeeps(s: Store, r: Run, m: Masters, e: Entry)
    requires Creatable(e) && Valid(s) && Valid(r.store) && Kept(s, r.store)
    ensures Valid(CreateStyle(r, m, e).store) && Kept(s, CreateStyle(r, m, e).store)
  {
  }

  lemma OnlyAddsKeeps(a: Store, b: Store, c: Store)
    requires Kept(a, b) && OnlyAdds(b, c)
    ensures Kept(a, c)
  {
  }

  lemma EntryKeeps(s: Store, r: Run, m: Masters, read: map<nat, Fields>, e: Entry)
    requires Valid(s) && Valid(r.store) && Kept(s, r.store) && ReadAt(s, read, e)
    ensures Valid(ApplyEntry(r, m, read, e).store) && Kept(s, ApplyEntry(r, m, read, e).store)
  {
    if Verifies(e) {
      var v, id := VerifyStyle(r, read, e), e.existing.value;
      VerifyKeeps(s, r, read, e);
      MappingsOnlyAdd(v, m, id, e);
      OnlyAddsKeeps(s, v.store, AddMappings(v, m, id, e).store);
    } else if Builds(e) {
      var c, id := CreateStyle(r, m, e), r.store.nextId;
      CreateKeeps(s, r, m, e);
      MappingsOnlyAdd(c, m, id, e);
      OnlyAddsKeeps(s, c.store, AddMappings(c, m, id, e).store);
    }
  }

  lemma {:induction false} RunKeeps(s: Store, m: Masters, read: map<nat, Fields>, plan: seq<Entry>)
    requires Valid(s) && forall e <- plan :: ReadAt(s, read, e)
    ensures Valid(ApplyAll(s, m, read, plan).store) && Kept(s, ApplyAll(s, m, read, plan).store)
  {
    if plan != [] {
      var n := |plan| - 1;
      RunKeeps(s, m, read, plan[..n]);
      assert plan[n] in plan;
      EntryKeeps(s, ApplyAll(s, m, read, plan[..n]), m, read, plan[n]);
    }
  }

  /** Whatever the plan, and wherever a service call stops it, nothing that had a value before is changed. */
  lemma NothingIsOverwritten(s: Store, m: Masters, plan: seq<Entry>)
    requires Valid(s)
    ensures var done := Applied(s, m, plan);
            done.Some? ==> Valid(done.value.store) && Kept(s, done.value.store)
  {
    RunKeeps(s, m, Snapshot(s, plan), plan);
  }

  /** The run is refused, before any write, exactly when a style to verify holds another description. */
  lemma RefusedExactly(s: Store, m: Masters, plan: seq<Entry>)
    ensures Applied(s, m, plan).None? <==>
              exists e <- plan ::
                && Verifies(e) && e.existing.value in s.styles
                && e.fields.hsnDescription.Some? && s.styles[e.existing.value].fields.hsnDescription.Some?
                && s.styles[e.existing.value].fields.hsnDescription != e.fields.hsnDescription
  {
  }

  /** In a run that finishes every entry is created, verified or blocked. */
  lemma {:induction false} EveryEntryIsCounted(s: Store, m: Masters, read: map<nat, Fields>, plan: seq<Entry>)
    ensures var r := ApplyAll(s, m, read, plan);
            && |r.created| + |r.verified| + r.blocked <= |plan|
            && (!r.halted ==> |r.created| + |r.verified| + r.blocked == |plan|)
  {
    if plan != [] {
      var n := |plan| - 1;
      var r, e := ApplyAll(s, m, read, plan[..n]), plan[n];
      EveryEntryIsCounted(s, m, read, plan[..n]);
      if !r.halted && e.action != Blocked {
        if Verifies(e) {
          MappingsOnlyAdd(VerifyStyle(r, read, e), m, e.existing.value, e);
        } else if Creatable(e) {
          MappingsOnlyAdd(CreateStyle(r, m, e), m, r.store.nextId, e);
        }
      }
    }
  }

  // ---------------------------------------------------------------------------
  // A second run writes nothing
  // ---------------------------------------------------------------------------

  predicate SetWhere(proposed: Option<string>, now: Option<string>) {
    proposed.Some? ==> now.Some?
  }

  predicate FieldsSet(proposed: Fields, now: Fields) {
    && SetWhere(proposed.category, now.category)
    && SetWhere(proposed.hsn, now.hsn)
    && SetWhere(proposed.hsnDescription, now.hsnDescription)
  }

  predicate SizePresent(s: Store, id: nat, size: SizeEntry) {
    size.action == Blocked || size.target.None? || (id, size.target.value) in s.sizes
  }

  predicate RatePresent(s: Store, id: nat, f: Option<FactoryEntry>) {
    || f.None? || f.value.factory.None? || f.value.action != Create || f.value.price.None?
    || (id, f.value.factory.value) in s.rates
  }

  /** The entry has nothing left to write for this style. */
  predicate MappingsPresent(s: Store, id: nat, e: Entry) {
    (forall size <- e.sizes :: SizePresent(s, id, size)) && RatePresent(s, id, e.factory)
  }

  predicate Settled(s: Store, e: Entry) {
    || e.action == Blocked
    || (Verifies(e) && FieldsSet(e.fields, FieldsOf(s, e.existing.value)) && MappingsPresent(s, e.existing.value, e))
    || (!Verifies(e) && (Creatable(e) ==> NumberTaken(s, e.number)))
  }

  /** Rows, values and mappings may be added, never taken away. */
  ghost predicate Grows(before: Store, after: Store) {
    && (forall id <- before.styles ::
          && id in after.styles && after.styles[id].number == before.styles[id].number
          && FieldsSet(before.styles[id].fields, after.styles[id].fields))
    && before.sizes <= after.sizes && before.rates.Keys <= after.rates.Keys
  }

  lemma SettledStays(before: Store, after: Store, e: Entry)
    requires Grows(before, after) && Settled(before, e)
    ensures Settled(after, e)
  {
    if !Verifies(e) && NumberTaken(before, e.number) {
      var id :| id in before.styles && before.styles[id].number == e.number;
      assert after.styles[id].number == e.number;
    }
  }

  lemma OnlyAddsGrows(a: Store, b: Store, c: Store)
    requires Grows(a, b) && OnlyAdds(b, c)
    ensures Grows(a, c)
  {
  }

  lemma VerifyGrows(r: Run, read: map<nat, Fields>, e: Entry)
    requires Valid(r.store) && Verifies(e)
    ensures Grows(r.store, VerifyStyle(r, read, e).store) && Valid(VerifyStyle(r, read, e).store)
  {
  }

  lemma CreateGrows(r: Run, m: Masters, e: Entry)
    requires Valid(r.store) && Creatable(e)
    ensures Grows(r.store, CreateStyle(r, m, e).store) && Valid(CreateStyle(r, m, e).store)
  {
  }

  lemma EntryGrows(r: Run, m: Masters, read: map<nat, Fields>, e: Entry)
    requires Valid(r.store)
    ensures Grows(r.store, ApplyEntry(r, m, read, e).store) && Valid(ApplyEntry(r, m, read, e).store)
  {
    if Verifies(e) {
      var v := VerifyStyle(r, read, e);
      VerifyGrows(r, read, e);
      MappingsOnlyAdd(v, m, e.existing.value, e);
      OnlyAddsGrows(r.store, v.store, AddMappings(v, m, e.existing.value, e).store);
    } else if Builds(e) {
      var c := CreateStyle(r, m, e);
      CreateGrows(r, m, e);
      MappingsOnlyAdd(c, m, r.store.nextId, e);
      OnlyAddsGrows(r.store, c.store, AddMappings(c, m, r.store.nextId, e).store);
    }
  }

  lemma {:induction false} SizesArePresent(r: Run, m: Masters, id: nat, sizes: seq<SizeEntry>)
    requires !AddSizes(r, m, id, sizes).halted
    ensures forall size <- sizes :: SizePresent(AddSizes(r, m, id, sizes).store, id, size)
  {
    if sizes != [] {
      var n := |sizes| - 1;
      SizesArePresent(r, m, id, sizes[..n]);
      SizesOnlyAdd(r, m, id, sizes[..n]);
      forall size <- sizes ensures SizePresent(AddSizes(r, m, id, sizes).store, id, size) {
        assert size == sizes[n] || size in sizes[..n];
      }
    }
  }

  lemma MappingsArePresent(r: Run, m: Masters, id: nat, e: Entry)
    requires !AddMappings(r, m, id, e).halted
    ensures MappingsPresent(AddMappings(r, m, id, e).store, id, e)
  {
    SizesArePresent(r, m, id, e.sizes);
  }

  lemma VerifiedIsSet(s: Store, r: Run, read: map<nat, Fields>, e: Entry)
    requires Verifies(e) && ReadAt(s, read, e) && Grows(s, r.store) && !VerifyStyle(r, read, e).halted
    ensures FieldsSet(e.fields, FieldsOf(VerifyStyle(r, read, e).store, e.existing.value))
  {
  }

  lemma EntrySettles(s: Store, r: Run, m: Masters, read: map<nat, Fields>, e: Entry)
    requires ReadAt(s, read, e) && Grows(s, r.store) && !ApplyEntry(r, m, read, e).halted
    ensures Settled(ApplyEntry(r, m, read, e).store, e)
  {
    if e.action != Blocked {
      if Verifies(e) {
        var v := VerifyStyle(r, read, e);
        VerifiedIsSet(s, r, read, e);
        MappingsOnlyAdd(v, m, e.existing.value, e);
        MappingsArePresent(v, m, e.existing.value, e);
      } else if Creatable(e) {
        var c, id := CreateStyle(r, m, e), r.store.nextId;
        MappingsOnlyAdd(c, m, id, e);
        assert c.store.styles[id].number == e.number;
      }
    }
  }

  lemma GrowsFurther(a: Store, b: Store, c: Store)
    requires Grows(a, b) && Grows(b, c)
    ensures Grows(a, c)
  {
  }

  lemma {:induction false} RunSettles(s: Store, m: Masters, read: map<nat, Fields>, plan: seq<Entry>)
    requires Valid(s) && forall e <- plan :: ReadAt(s, read, e)
    ensures Valid(ApplyAll(s, m, read, plan).store) && Grows(s, ApplyAll(s, m, read, plan).store)
    ensures !ApplyAll(s, m, read, plan).halted ==> forall e <- plan :: Settled(ApplyAll(s, m, read, plan).store, e)
  {
    if plan != [] {
      var n := |plan| - 1;
      var r, done, last := ApplyAll(s, m, read, plan[..n]), ApplyAll(s, m, read, plan), plan[n];
      RunSettles(s, m, read, plan[..n]);
      assert last in plan;
      EntryGrows(r, m, read, last);
      GrowsFurther(s, r.store, done.store);
      if !done.halted {
        EntrySettles(s, r, m, read, last);
        forall e <- plan ensures Settled(done.store, e) {
          if e != last {
            assert e in plan[..n];
            SettledStays(r.store, done.store, e);
          }
        }
      }
    }
  }

  lemma {:induction false} PresentSizesAddNothing(r: Run, m: Masters, id: nat, sizes: seq<SizeEntry>)
    requires !r.halted && forall size <- sizes :: SizePresent(r.store, id, size)
    ensures AddSizes(r, m, id, sizes).store == r.store && !AddSizes(r, m, id, sizes).halted
  {
    if sizes != [] {
      PresentSizesAddNothing(r, m, id, sizes[..|sizes| - 1]);
      assert sizes[|sizes| - 1] in sizes;
    }
  }

  lemma SettledEntryWritesNothing(r: Run, m: Masters, read: map<nat, Fields>, e: Entry)
    requires ReadAt(r.store, read, e) && Settled(r.store, e)
    ensures ApplyEntry(r, m, read, e).store == r.store
    ensures !r.halted && !Builds(e) ==>
              !ApplyEntry(r, m, read, e).halted && ApplyEntry(r, m, read, e).created == r.created
  {
    if Verifies(e) && !r.halted {
      PresentSizesAddNothing(VerifyStyle(r, read, e), m, e.existing.value, e.sizes);
      MappingsOnlyAdd(VerifyStyle(r, read, e), m, e.existing.value, e);
    }
  }

  lemma {:induction false} SettledPlanWritesNothing(s: Store, m: Masters, read: map<nat, Fields>, plan: seq<Entry>)
    requires forall e <- plan :: ReadAt(s, read, e) && Settled(s, e)
    ensures ApplyAll(s, m, read, plan).store == s
    ensures (forall e <- plan :: !Builds(e)) ==>
              !ApplyAll(s, m, read, plan).halted && ApplyAll(s, m, read, plan).created == []
  {
    if plan != [] {
      var n := |plan| - 1;
      SettledPlanWritesNothing(s, m, read, plan[..n]);
      assert plan[n] in plan;
      SettledEntryWritesNothing(ApplyAll(s, m, read, plan[..n]), m, read, plan[n]);
    }
  }

  /**
   Any plan that ran to its end writes nothing when it is applied again: the second run is
   refused, stops at the first style it would create, or, if the plan creates none, finishes.
   */
  lemma SecondRunWritesNothing(s: Store, m: Masters, plan: seq<Entry>)
    requires Valid(s) && Applied(s, m, plan).Some? && !Applied(s, m, plan).value.halted
    ensures var now := Applied(s, m, plan).value.store;
            var again := Applied(now, m, plan);
            && (again.Some? ==> again.value.store == now)
            && (again.Some? && (forall e <- plan :: !Builds(e)) ==> !again.value.halted)
  {
    var now := Applied(s, m, plan).value.store;
    RunSettles(s, m, Snapshot(s, plan), plan);
    SettledPlanWritesNothing(now, m, Snapshot(now, plan), plan);
  }

  // ---------------------------------------------------------------------------
  // With one entry per style, the report is exact
  // ---------------------------------------------------------------------------

  ghost predicate OneEntryPerStyle(plan: seq<Entry>) {
    forall i, j | 0 <= i < j < |plan| && Verifies(plan[i]) && Verifies(plan[j]) :: plan[i].existing != plan[j].existing
  }

  function Merged(previous: Option<string>, proposed: Option<string>): Option<string> {
    if previous.Some? then previous else proposed
  }

  function MergedFields(previous: Fields, proposed: Fields): Fields {
    Fields(
      Merged(previous.category, proposed.category),
      Merged(previous.hsn, proposed.hsn),
      Merged(previous.hsnDescription, proposed.hsnDescription))
  }

  lemma StyleAfterEntry(r: Run, m: Masters, read: map<nat, Fields>, e: Entry, id: nat)
    requires Valid(r.store) && id < r.store.nextId && !ApplyEntry(r, m, read, e).halted
    ensures var now := FieldsOf(ApplyEntry(r, m, read, e).store, id);
            now == if Verifies(e) && e.existing == Some(id) && id in r.store.styles
                   then PatchedFields(FieldsOf(r.store, id), FieldsAt(read, id), e.fields)
                   else FieldsOf(r.store, id)
  {
    if e.action != Blocked {
      if Verifies(e) {
        MappingsOnlyAdd(VerifyStyle(r, read, e), m, e.existing.value, e);
      } else if Creatable(e) {
        MappingsOnlyAdd(CreateStyle(r, m, e), m, r.store.nextId, e);
      }
    }
  }

  lemma {:induction false} UnnamedStyleStays(s: Store, m: Masters, read: map<nat, Fields>, plan: seq<Entry>, id: nat)
    requires Valid(s) && id in s.styles && !ApplyAll(s, m, read, plan).halted
    requires forall e <- plan :: ReadAt(s, read, e)
    requires forall e <- plan | Verifies(e) :: e.existing != Some(id)
    ensures FieldsOf(ApplyAll(s, m, read, plan).store, id) == FieldsOf(s, id)
  {
    if plan != [] {
      var n := |plan| - 1;
      UnnamedStyleStays(s, m, read, plan[..n], id);
      RunKeeps(s, m, read, plan[..n]);
      assert plan[n] in plan;
      StyleAfterEntry(ApplyAll(s, m, read, plan[..n]), m, read, plan[n], id);
    }
  }

  lemma {:induction false} NamedStyleMerges(s: Store, m: Masters, read: map<nat, Fields>, plan: seq<Entry>, k: nat)
    requires Valid(s) && k < |plan| && Verifies(plan[k]) && plan[k].existing.value in s.styles
    requires OneEntryPerStyle(plan) && !ApplyAll(s, m, read, plan).halted
    requires forall e <- plan :: ReadAt(s, read, e)
    ensures var id := plan[k].existing.value;
            FieldsOf(ApplyAll(s, m, read, plan).store, id) == MergedFields(FieldsOf(s, id), plan[k].fields)
  {
    var n, id := |plan| - 1, plan[k].existing.value;
    assert plan[n] in plan;
    RunKeeps(s, m, read, plan[..n]);
    StyleAfterEntry(ApplyAll(s, m, read, plan[..n]), m, read, plan[n], id);
    if k == n {
      UnnamedStyleStays(s, m, read, plan[..n], id);
    } else {
      NamedStyleMerges(s, m, read, plan[..n], k);
    }
  }

  /**
   With one entry per style, a finished run leaves each verified style with its old values
   and the proposed ones in the gaps. So a field reported as set or already set holds the
   proposed value, and every proposed description is in place.
   */
  lemma ReportIsExact(s: Store, m: Masters, plan: seq<Entry>, k: nat)
    requires Valid(s) && Applied(s, m, plan).Some? && !Applied(s, m, plan).value.halted && OneEntryPerStyle(plan)
    requires k < |plan| && Verifies(plan[k]) && plan[k].existing.value in s.styles
    ensures var e, now := plan[k], Applied(s, m, plan).value.store;
            && FieldsOf(now, e.existing.value) == MergedFields(FieldsOf(s, e.existing.value), e.fields)
            && (e.fields.hsnDescription.Some? ==>
                  FieldsOf(now, e.existing.value).hsnDescription == e.fields.hsnDescription)
  {
    NamedStyleMerges(s, m, Snapshot(s, plan), plan, k);
    assert plan[k] in plan;
    assert !Conflicts(Snapshot(s, plan), plan[k]);
  }

  /** What the entries for a style propose together: in each field the last one that proposes anything. */
  function Proposed(plan: seq<Entry>, id: nat): Fields {
    if plan == [] then BLANK
    else
      var before, e := Proposed(plan[..|plan| - 1], id), plan[|plan| - 1];
      if Verifies(e) && e.existing == Some(id) then MergedFields(e.fields, before) else before
  }

  /** For any plan, also one that names a style several times: the old values, and in the gaps the last proposals. */
  lemma {:induction false} StyleFieldsExactly(s: Store, m: Masters, read: map<nat, Fields>, plan: seq<Entry>, id: nat)
    requires Valid(s) && id in s.styles && !ApplyAll(s, m, read, plan).halted
    requires forall e <- plan :: ReadAt(s, read, e)
    ensures FieldsOf(ApplyAll(s, m, read, plan).store, id) == MergedFields(FieldsOf(s, id), Proposed(plan, id))
  {
    if plan != [] {
      var n := |plan| - 1;
      StyleFieldsExactly(s, m, read, plan[..n], id);
      RunKeeps(s, m, read, plan[..n]);
      assert plan[n] in plan;
      StyleAfterEntry(ApplyAll(s, m, read, plan[..n]), m, read, plan[n], id);
    }
  }

  /** A field reported as set, or as already set, holds the value reported. */
  predicate Holds(previous: Option<string>, proposed: Option<string>, now: Option<string>) {
    Reconcile(previous, proposed) in {Set, AlreadySet} ==> now == proposed
  }

  predicate HoldsAll(previous: Fields, proposed: Fields, now: Fields) {
    && Holds(previous.category, proposed.category, now.category)
    && Holds(previous.hsn, proposed.hsn, now.hsn)
    && Holds(previous.hsnDescription, proposed.hsnDescription, now.hsnDescription)
  }

  /** No later entry proposes something else for a field that was empty. */
  predicate LastWord(previous: Option<string>, proposed: Option<string>, last: Option<string>) {
    previous.None? && proposed.Some? ==> last == proposed
  }

  predicate LastWords(previous: Fields, proposed: Fields, last: Fields) {
    && LastWord(previous.category, proposed.category, last.category)
    && LastWord(previous.hsn, proposed.hsn, last.hsn)
    && LastWord(previous.hsnDescription, proposed.hsnDescription, last.hsnDescription)
  }

  lemma GapHolds(previous: Option<string>, proposed: Option<string>, last: Option<string>)
    ensures Holds(previous, proposed, Merged(previous, last)) <==> LastWord(previous, proposed, last)
  {
  }

  lemma GapsHold(previous: Fields, proposed: Fields, last: Fields)
    ensures HoldsAll(previous, proposed, MergedFields(previous, last)) <==> LastWords(previous, proposed, last)
  {
    GapHolds(previous.category, proposed.category, last.category);
    GapHolds(previous.hsn, proposed.hsn, last.hsn);
    GapHolds(previous.hsnDescription, proposed.hsnDescription, last.hsnDescription);
  }

  /**
   For any plan, what is reported about an entry holds in the end exactly when the entry has the
   last word on the gaps.
   */
  lemma ReportHoldsExactly(s: Store, m: Masters, plan: seq<Entry>, k: nat)
    requires Valid(s) && Applied(s, m, plan).Some? && !Applied(s, m, plan).value.halted
    requires k < |plan| && Verifies(plan[k]) && plan[k].existing.value in s.styles
    ensures var id, proposed := plan[k].existing.value, plan[k].fields;
            HoldsAll(FieldsOf(s, id), proposed, FieldsOf(Applied(s, m, plan).value.store, id)) <==>
            LastWords(FieldsOf(s, id), proposed, Proposed(plan, id))
  {
    var id := plan[k].existing.value;
    StyleFieldsExactly(s, m, Snapshot(s, plan), plan, id);
    GapsHold(FieldsOf(s, id), plan[k].fields, Proposed(plan, id));
  }

  // ---------------------------------------------------------------------------
  // Which sizes and rates a style ends up with
  // ---------------------------------------------------------------------------

  predicate Wants(size: SizeEntry, z: nat) {
    size.action != Blocked && size.target == Some(z)
  }

  function WantedRate(f: Option<FactoryEntry>, factory: nat): Option<real> {
    if f.Some? && f.value.factory == Some(factory) && f.value.action == Create then f.value.price else None
  }

  function RateOf(s: Store, id: nat, factory: nat): Option<real> {
    if (id, factory) in s.rates then Some(s.rates[(id, factory)]) else None
  }

  function FirstOf(rate: Option<real>, other: Option<real>): Option<real> {
    if rate.Some? then rate else other
  }

  /**
   The style has the sizes it had and those the entry wants, and the rate it had or else the one
   the entry proposes.
   */
  ghost predicate MappedExactly(before: Store, after: Store, id: nat, e: Entry) {
    && (forall z: nat ::
          (id, z) in after.sizes <==> (id, z) in before.sizes || exists size <- e.sizes :: Wants(size, z))
    && (forall f: nat :: RateOf(after, id, f) == FirstOf(RateOf(before, id, f), WantedRate(e.factory, f)))
  }

  ghost predicate SameMappings(before: Store, after: Store, id: nat) {
    && (forall z: nat :: (id, z) in after.sizes <==> (id, z) in before.sizes)
    && (forall f: nat :: RateOf(after, id, f) == RateOf(before, id, f))
  }

  lemma {:induction false} SizesExactly(r: Run, m: Masters, id: nat, sizes: seq<SizeEntry>, key: (nat, nat))
    requires !AddSizes(r, m, id, sizes).halted
    ensures key in AddSizes(r, m, id, sizes).store.sizes <==>
              key in r.store.sizes || (key.0 == id && exists size <- sizes :: Wants(size, key.1))
  {
    if sizes != [] {
      var n := |sizes| - 1;
      SizesExactly(r, m, id, sizes[..n], key);
      assert sizes[n] in sizes && forall size <- sizes :: size == sizes[n] || size in sizes[..n];
    }
  }

  lemma MappingsExactly(r: Run, m: Masters, id: nat, e: Entry)
    requires !AddMappings(r, m, id, e).halted
    ensures MappedExactly(r.store, AddMappings(r, m, id, e).store, id, e)
    ensures forall other: nat | other != id :: SameMappings(r.store, AddMappings(r, m, id, e).store, other)
  {
    SizesOnlyAdd(r, m, id, e.sizes);
    forall key: (nat, nat) ensures key in AddSizes(r, m, id, e.sizes).store.sizes <==>
        key in r.store.sizes || (key.0 == id && exists size <- e.sizes :: Wants(size, key.1)) {
      SizesExactly(r, m, id, e.sizes, key);
    }
  }

  lemma MappingsAfterEntry(r: Run, m: Masters, read: map<nat, Fields>, e: Entry, id: nat)
    requires Valid(r.store) && id < r.store.nextId && !ApplyEntry(r, m, read, e).halted
    ensures var after := ApplyEntry(r, m, read, e).store;
            if Verifies(e) && e.existing == Some(id) then MappedExactly(r.store, after, id, e)
            else SameMappings(r.store, after, id)
  {
    if Verifies(e) {
      MappingsExactly(VerifyStyle(r, read, e), m, e.existing.value, e);
      assert e.existing != Some(id) ==>
          SameMappings(VerifyStyle(r, read, e).store, ApplyEntry(r, m, read, e).store, id);
    } else if Builds(e) {
      MappingsExactly(CreateStyle(r, m, e), m, r.store.nextId, e);
      assert SameMappings(CreateStyle(r, m, e).store, ApplyEntry(r, m, read, e).store, id);
    }
  }

  lemma {:induction false} UnnamedMappingsStay(s: Store, m: Masters, read: map<nat, Fields>, plan: seq<Entry>, id: nat)
    requires Valid(s) && id in s.styles && !ApplyAll(s, m, read, plan).halted
    requires forall e <- plan :: ReadAt(s, read, e)
    requires forall e <- plan | Verifies(e) :: e.existing != Some(id)
    ensures SameMappings(s, ApplyAll(s, m, read, plan).store, id)
  {
    if plan != [] {
      var n := |plan| - 1;
      UnnamedMappingsStay(s, m, read, plan[..n], id);
      RunKeeps(s, m, read, plan[..n]);
      assert plan[n] in plan;
      MappingsAfterEntry(ApplyAll(s, m, read, plan[..n]), m, read, plan[n], id);
    }
  }

  /**
   With one entry per style, a finished run adds to a verified style exactly the sizes and the rate
   its entry asks for.
   */
  lemma {:induction false} NamedMappingsExact(s: Store, m: Masters, read: map<nat, Fields>, plan: seq<Entry>, k: nat)
    requires Valid(s) && k < |plan| && Verifies(plan[k]) && plan[k].existing.value in s.styles
    requires OneEntryPerStyle(plan) && !ApplyAll(s, m, read, plan).halted
    requires forall e <- plan :: ReadAt(s, read, e)
    ensures MappedExactly(s, ApplyAll(s, m, read, plan).store, plan[k].existing.value, plan[k])
  {
    var n, id := |plan| - 1, plan[k].existing.value;
    var r := ApplyAll(s, m, read, plan[..n]);
    assert plan[n] in plan;
    RunKeeps(s, m, read, plan[..n]);
    MappingsAfterEntry(r, m, read, plan[n], id);
    if k == n {
      UnnamedMappingsStay(s, m, read, plan[..n], id);
    } else {
      NamedMappingsExact(s, m, read, plan[..n], k);
      assert SameMappings(r.store, ApplyAll(s, m, read, plan).store, id);
    }
  }

  /**
   A plan made by hand can lack that: of two entries for one style the later one replaces
   what the earlier one was reported to have set. The planner never makes such a plan.
   */
  lemma SharedStyleBreaksReport(s: Store, m: Masters, id: nat, number: string)
    requires Valid(s) && id in s.styles && s.styles[id].fields.category == None
    ensures var first := Fields(Some("A"), None, None);
            var a := Entry(VerifyExisting, Some(id), number, None, None, None, "", first, [], None);
            var b := a.(fields := Fields(Some("B"), None, None));
            var done := Applied(s, m, [a, b]);
            && !OneEntryPerStyle([a, b]) && done.Some? && !done.value.halted
            && Reconcile(done.value.details[0].previous.category, done.value.details[0].proposed.category) == Set
            && done.value.details[0].id == id && FieldsOf(done.value.store, id).category == Some("B")
  {
    var a := Entry(VerifyExisting, Some(id), number, None, None, None, "", Fields(Some("A"), None, None), [], None);
    var b := a.(fields := Fields(Some("B"), None, None));
    var read := Snapshot(s, [a, b]);
    assert a in [a, b] && b in [a, b];
    assert [a, b][..1] == [a] && [a][..0] == [];
    assert ApplyAll(s, m, read, [a]) == ApplyEntry(Start(s), m, read, a);
  }
}
