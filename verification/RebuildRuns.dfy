/**
 What holds of every interleaving of rebuild runs, and what of those in which no lock is lost
 too early (apps/api/src/cli/disposable-rebuild.ts:94-142, 406-438).
 */
module RebuildRuns {
  import opened Prelude
  import opened RebuildOwnership

  // ---------------------------------------------------------------------------
  // What a run in progress may rely on, with or without its lock
  // ---------------------------------------------------------------------------

  predicate WritesAt(s: Process, root: Path) {
    (s.at.WritingReport? || s.at.WritingMedia?) && CurrentRoot(s) == root
  }

  /** If the root carries this marker, its contents belong to a database that has an owner. */
  predicate Reusable(d: Database, root: Directory, mine: Marker) {
    root.marker == mine && root.contents ==> d.comment.Some?
  }

  /** An unmarked directory is empty. */
  predicate NoStrayContents(d: Directory) {
    d.marker.Missing? ==> !d.contents
  }

  /** Without an owner there are no objects. */
  predicate CleanTarget(d: Database) {
    d.comment.None? ==> d.objects == 0
  }

  /** Contents are there only beside a marker, and beside the configuration's own only with an owner. */
  predicate CleanRoot(d: Database, root: Directory, mine: Marker) {
    NoStrayContents(root) && Reusable(d, root, mine)
  }

  /** The run has read its target, its report root, its media root. */
  predicate TargetRead(at: Point) {
    !at.Submitted?
  }

  predicate ReportRead(at: Point) {
    TargetRead(at) && !at.TargetSeen?
  }

  predicate MediaRead(at: Point) {
    ReportRead(at) && !at.ReportSeen?
  }

  predicate Sound(s: Process, d: Database, report: Directory, media: Directory) {
    var c := s.config;
    && c.reportRoot != c.mediaRoot
    && (s.owned || s.at.Staging? ==> d.comment.Some?)
    && (TargetRead(s.at) ==> CleanTarget(d))
    && (ReportRead(s.at) ==> CleanRoot(d, report, MarkerOf(c, c.reportRoot)))
    && (MediaRead(s.at) ==> CleanRoot(d, media, MarkerOf(c, c.mediaRoot)))
    && (s.at.WritingReport? ==> report == Directory(Torn, false))
    && (s.at.WritingMedia? ==> media == Directory(Torn, false))
    && (s.at.ReportClaimed? || s.at.WritingMedia? || s.at.RootsClaimed? || s.at.Staging? ==>
          report.marker == MarkerOf(c, c.reportRoot))
    && (s.at.RootsClaimed? || s.at.Staging? ==> media.marker == MarkerOf(c, c.mediaRoot))
  }

  predicate SoundIn(w: World, p: Pid)
    requires p in w.processes
  {
    var c := w.processes[p].config;
    Sound(w.processes[p], DatabaseOf(w, c), DirectoryAt(w, c.reportRoot), DirectoryAt(w, c.mediaRoot))
  }

  ghost predicate Invariant(w: World) {
    && (forall p <- w.processes :: SoundIn(w, p))
    && (forall p <- w.processes, q <- w.processes, root ::
          p != q && WritesAt(w.processes[p], root) ==> !WritesAt(w.processes[q], root))
  }

  /** All that a step can do to a database: an owner never goes, and without one nothing is added. */
  predicate DatabaseGrows(d: Database, d': Database) {
    && (d.comment.Some? ==> d'.comment.Some?)
    && (d'.comment.None? ==> d'.objects == d.objects)
  }

  /** All that a step can do to a directory; `writer` tells that the process is writing its marker. */
  predicate DirectoryGrows(d: Directory, d': Directory, writer: bool) {
    && (d.marker.Complete? ==> d'.marker == d.marker) && (d.contents ==> d'.contents)
    && (d.marker.Torn? && !writer ==> d' == d)
    && (d.marker.Missing? ==> !d'.marker.Complete? && d'.contents == d.contents)
    && (d'.marker.Missing? ==> d.marker.Missing?)
  }

  lemma DatabaseStep(w: World, e: Event, c: Config)
    requires Possible(w, e) && (e.p in w.processes ==> SoundIn(w, e.p))
    ensures DatabaseGrows(DatabaseOf(w, c), DatabaseOf(Next(w, e), c))
  {
  }

  lemma DirectoryStep(w: World, e: Event, root: Path)
    requires Possible(w, e) && (e.p in w.processes ==> SoundIn(w, e.p))
    ensures DirectoryGrows(DirectoryAt(w, root), DirectoryAt(Next(w, e), root),
                           e.p in w.processes && WritesAt(w.processes[e.p], root))
  {
  }

  lemma ProcessStep(w: World, e: Event, q: Pid)
    requires Possible(w, e) && q != e.p
    ensures q in Next(w, e).processes <==> q in w.processes
    ensures q in w.processes ==> Next(w, e).processes[q] == w.processes[q]
  {
  }

  /** Contents are only added to a marked root by a stage, whose database has an owner. */
  lemma ReusableStep(w: World, e: Event, c: Config, root: Path)
    requires Possible(w, e) && (e.p in w.processes ==> SoundIn(w, e.p))
    requires Reusable(DatabaseOf(w, c), DirectoryAt(w, root), MarkerOf(c, root))
    ensures Reusable(DatabaseOf(Next(w, e), c), DirectoryAt(Next(w, e), root), MarkerOf(c, root))
  {
    DatabaseStep(w, e, c);
    if e.Stage? {
      StageReuses(w, e, c, root);
    } else {
      OthersReuse(w, e, root);
    }
  }

  lemma StageReuses(w: World, e: Event, c: Config, root: Path)
    requires e.Stage? && Possible(w, e) && SoundIn(w, e.p)
    requires Reusable(DatabaseOf(w, c), DirectoryAt(w, root), MarkerOf(c, root))
    ensures Reusable(DatabaseOf(Next(w, e), c), DirectoryAt(Next(w, e), root), MarkerOf(c, root))
  {
  }

  lemma OthersReuse(w: World, e: Event, root: Path)
    requires !e.Stage? && Possible(w, e) && (e.p in w.processes ==> SoundIn(w, e.p))
    ensures DirectoryAt(Next(w, e), root) == DirectoryAt(w, root) || !DirectoryAt(Next(w, e), root).contents
            || DirectoryAt(Next(w, e), root).marker.Torn?
  {
  }

  /** What the others do never invalidates what a run relies on. */
  lemma OthersKept(w: World, e: Event, q: Pid)
    requires Invariant(w) && Possible(w, e)
    requires q in w.processes && q != e.p
    ensures q in Next(w, e).processes && SoundIn(Next(w, e), q)
  {
    var c := w.processes[q].config;
    assert SoundIn(w, q);
    ProcessStep(w, e, q);
    DatabaseStep(w, e, c);
    DirectoryStep(w, e, c.reportRoot);
    DirectoryStep(w, e, c.mediaRoot);
    if ReportRead(w.processes[q].at) { ReusableStep(w, e, c, c.reportRoot); }
    if MediaRead(w.processes[q].at) { ReusableStep(w, e, c, c.mediaRoot); }
  }

  lemma SelfKept(w: World, e: Event)
    requires Invariant(w) && Possible(w, e)
    requires e.p in Next(w, e).processes
    ensures SoundIn(Next(w, e), e.p)
  {
    if e.p in w.processes {
      assert SoundIn(w, e.p);
      if e.OpenMarker? { OpenMarkerKeeps(w, e.p); }
      else if e.WriteMarker? { WriteMarkerKeeps(w, e.p); }
      else if e.Stage? { StageKeeps(w, e); }
    }
  }

  lemma OpenMarkerKeeps(w: World, p: Pid)
    requires Possible(w, OpenMarker(p)) && SoundIn(w, p) && p in Next(w, OpenMarker(p)).processes
    ensures SoundIn(Next(w, OpenMarker(p)), p)
  {
  }

  lemma WriteMarkerKeeps(w: World, p: Pid)
    requires Possible(w, WriteMarker(p)) && SoundIn(w, p)
    ensures p in Next(w, WriteMarker(p)).processes && SoundIn(Next(w, WriteMarker(p)), p)
  {
  }

  lemma StageKeeps(w: World, e: Event)
    requires e.Stage? && Possible(w, e) && SoundIn(w, e.p)
    ensures e.p in Next(w, e).processes && SoundIn(Next(w, e), e.p)
  {
    var c := w.processes[e.p].config;
    DatabaseStep(w, e, c);
    DirectoryStep(w, e, c.reportRoot);
    DirectoryStep(w, e, c.mediaRoot);
    assert Next(w, e).processes == w.processes;
  }

  lemma WriterSeesTorn(w: World, p: Pid, root: Path)
    requires p in w.processes && SoundIn(w, p) && WritesAt(w.processes[p], root)
    ensures DirectoryAt(w, root).marker.Torn?
  {
  }

  lemma NewWriterSawNone(w: World, e: Event, root: Path)
    requires Possible(w, e) && e.p in Next(w, e).processes && WritesAt(Next(w, e).processes[e.p], root)
    ensures e.p in w.processes && (WritesAt(w.processes[e.p], root) || DirectoryAt(w, root).marker.Missing?)
  {
  }

  lemma WritersKept(w: World, e: Event, p: Pid, q: Pid, root: Path)
    requires Invariant(w) && Possible(w, e)
    requires p in Next(w, e).processes && q in Next(w, e).processes && p != q
    ensures !(WritesAt(Next(w, e).processes[p], root) && WritesAt(Next(w, e).processes[q], root))
  {
    if WritesAt(Next(w, e).processes[p], root) && WritesAt(Next(w, e).processes[q], root) {
      var other := if p == e.p then q else p;
      ProcessStep(w, e, other);
      WriterSeesTorn(w, other, root);
      if p == e.p || q == e.p {
        NewWriterSawNone(w, e, root);
      } else {
        ProcessStep(w, e, q);
      }
    }
  }

  lemma InvariantStep(w: World, e: Event)
    requires Invariant(w) && Possible(w, e)
    ensures Invariant(Next(w, e))
  {
    var w' := Next(w, e);
    forall q <- w'.processes ensures SoundIn(w', q) {
      if q == e.p { SelfKept(w, e); } else { ProcessStep(w, e, q); OthersKept(w, e, q); }
    }
    forall p <- w'.processes, q <- w'.processes, root | p != q && WritesAt(w'.processes[p], root)
      ensures !WritesAt(w'.processes[q], root)
    {
      WritersKept(w, e, p, q, root);
    }
  }

  // ---------------------------------------------------------------------------
  // Every run, with or without lost locks
  // ---------------------------------------------------------------------------

  /**
   At the start nothing runs and no target is locked. Comments, objects and directories are
   arbitrary: a target may have been dropped and created again beside roots still in use.
   */
  predicate Initial(w: World) {
    && w.processes == map[]
    && (forall n <- w.databases :: w.databases[n].lock.None?)
  }

  ghost predicate Reachable(states: seq<World>, events: seq<Event>) {
    Run(states, events) && Initial(states[0])
  }

  lemma {:induction false} InvariantThroughout(states: seq<World>, events: seq<Event>, i: nat)
    requires Reachable(states, events) && i < |states|
    ensures Invariant(states[i])
  {
    if i > 0 {
      InvariantThroughout(states, events, i - 1);
      assert StepAt(states, events, i - 1);
      InvariantStep(states[i - 1], events[i - 1]);
    }
  }

  lemma SoundStep(states: seq<World>, events: seq<Event>, i: nat)
    requires Reachable(states, events) && i < |events|
    ensures Invariant(states[i]) && Possible(states[i], events[i]) && states[i + 1] == Next(states[i], events[i])
    ensures events[i].p in states[i].processes ==> SoundIn(states[i], events[i].p)
  {
    InvariantThroughout(states, events, i);
    assert StepAt(states, events, i);
  }

  /** A database that has an owner keeps having one; one that has none has gained nothing. */
  lemma {:induction false} OwnedStaysOwned(states: seq<World>, events: seq<Event>, i: nat, j: nat, c: Config)
    requires Reachable(states, events) && i <= j < |states|
    ensures DatabaseGrows(DatabaseOf(states[i], c), DatabaseOf(states[j], c))
  {
    if j > i {
      OwnedStaysOwned(states, events, i, j - 1, c);
      SoundStep(states, events, j - 1);
      DatabaseStep(states[j - 1], events[j - 1], c);
    }
  }

  /** A complete marker is never changed, contents never go, and unmarked directories stay empty. */
  lemma {:induction false} MarkersStay(states: seq<World>, events: seq<Event>, i: nat, j: nat, root: Path)
    requires Reachable(states, events) && i <= j < |states|
    ensures var d, d' := DirectoryAt(states[i], root), DirectoryAt(states[j], root);
            && (d.marker.Complete? ==> d'.marker == d.marker) && (d.contents ==> d'.contents)
            && (NoStrayContents(d) ==> NoStrayContents(d'))
  {
    if j > i {
      MarkersStay(states, events, i, j - 1, root);
      SoundStep(states, events, j - 1);
      DirectoryStep(states[j - 1], events[j - 1], root);
    }
  }

  lemma {:induction false} ReusableThroughout(
    states: seq<World>, events: seq<Event>, i: nat, j: nat, c: Config, root: Path)
    requires Reachable(states, events) && i <= j < |states|
    requires Reusable(DatabaseOf(states[i], c), DirectoryAt(states[i], root), MarkerOf(c, root))
    ensures Reusable(DatabaseOf(states[j], c), DirectoryAt(states[j], root), MarkerOf(c, root))
  {
    if j > i {
      ReusableThroughout(states, events, i, j - 1, c, root);
      SoundStep(states, events, j - 1);
      ReusableStep(states[j - 1], events[j - 1], c, root);
    }
  }

  /** Target and roots are empty or the configuration's own - whatever else is in the roots. */
  predicate Available(w: World, c: Config) {
    var d := DatabaseOf(w, c);
    TargetAccepted(d, c) && RootAvailable(DirectoryAt(w, c.reportRoot), c, c.reportRoot)
    && RootAvailable(DirectoryAt(w, c.mediaRoot), c, c.mediaRoot)
  }

  predicate RootAvailable(d: Directory, c: Config, root: Path) {
    d.marker == MarkerOf(c, root) || (d.marker.Missing? && !d.contents)
  }

  /** The root is marked as the configuration's own and is not empty. */
  predicate Filled(w: World, c: Config, root: Path) {
    DirectoryAt(w, root).marker == MarkerOf(c, root) && DirectoryAt(w, root).contents
  }

  lemma FilledFromTheStart(states: seq<World>, events: seq<Event>, i: nat, c: Config, root: Path)
    requires Reachable(states, events) && i < |states| && DatabaseOf(states[i], c).comment.None?
    ensures Filled(states[i], c, root) <==> Filled(states[0], c, root)
  {
    OwnedStaysOwned(states, events, 0, i, c);
    MarkersStay(states, events, 0, i, root);
    if !Filled(states[0], c, root) {
      ReusableThroughout(states, events, 0, i, c, root);
    }
  }

  /** The database still has no owner, and a root of the configuration was filled before the first run. */
  predicate ReusesEarlierTarget(states: seq<World>, i: nat, c: Config)
    requires i < |states|
  {
    DatabaseOf(states[i], c).comment.None? && (Filled(states[0], c, c.reportRoot) || Filled(states[0], c, c.mediaRoot))
  }

  /**
   In every reachable state the guards pass exactly when nobody else owns the database or
   a root, no root has a torn marker, and the target is not a fresh database beside media or
   reports of an earlier one. The last check decides only for contents that were there
   before the first run: no run, crash or retry creates such a state.
   */
  lemma GuardsPassExactly(states: seq<World>, events: seq<Event>, i: nat, c: Config)
    requires Reachable(states, events) && i < |states|
    ensures GuardsPass(states[i], c) <==> Available(states[i], c) && !ReusesEarlierTarget(states, i, c)
  {
    if DatabaseOf(states[i], c).comment.None? {
      FilledFromTheStart(states, events, i, c, c.reportRoot);
      FilledFromTheStart(states, events, i, c, c.mediaRoot);
    }
  }

  /** Someone other than `c` got hold of its database or of one of its roots, or a marker is torn. */
  predicate Overtaken(w: World, c: Config) {
    var d := DatabaseOf(w, c);
    || (d.comment.Some? && d.comment != Some(OwnerOf(c)))
    || RootTaken(DirectoryAt(w, c.reportRoot), c, c.reportRoot)
    || RootTaken(DirectoryAt(w, c.mediaRoot), c, c.mediaRoot)
  }

  predicate RootTaken(d: Directory, c: Config, root: Path) {
    !d.marker.Missing? && d.marker != MarkerOf(c, root)
  }

  lemma GuardsPassMeans(w: World, c: Config)
    ensures var d := DatabaseOf(w, c);
            GuardsPass(w, c) <==>
              && !Overtaken(w, c) && CleanTarget(d)
              && CleanRoot(d, DirectoryAt(w, c.reportRoot), MarkerOf(c, c.reportRoot))
              && CleanRoot(d, DirectoryAt(w, c.mediaRoot), MarkerOf(c, c.mediaRoot))
  {
  }

  /** Nothing that runs, crashes, retries and timeouts leave behind makes a target or a root unclean. */
  lemma CleanStays(states: seq<World>, events: seq<Event>, i: nat, j: nat, c: Config, root: Path)
    requires Reachable(states, events) && i <= j < |states|
    ensures CleanTarget(DatabaseOf(states[i], c)) ==> CleanTarget(DatabaseOf(states[j], c))
    ensures CleanRoot(DatabaseOf(states[i], c), DirectoryAt(states[i], root), MarkerOf(c, root)) ==>
              CleanRoot(DatabaseOf(states[j], c), DirectoryAt(states[j], root), MarkerOf(c, root))
  {
    OwnedStaysOwned(states, events, i, j, c);
    MarkersStay(states, events, i, j, root);
    if Reusable(DatabaseOf(states[i], c), DirectoryAt(states[i], root), MarkerOf(c, root)) {
      ReusableThroughout(states, events, i, j, c, root);
    }
  }

  /**
   Once its guards have passed, a configuration passes them in every later state exactly as
   long as nobody overtakes it: no other owner of its database, no other or torn marker in
   its roots. Nothing else that runs, crashes, retries and timeouts leave behind counts.
   */
  lemma RetryUnlessOvertaken(states: seq<World>, events: seq<Event>, i: nat, j: nat, c: Config)
    requires Reachable(states, events) && i <= j < |states| && GuardsPass(states[i], c)
    ensures GuardsPass(states[j], c) <==> !Overtaken(states[j], c)
  {
    GuardsPassMeans(states[i], c);
    CleanStays(states, events, i, j, c, c.reportRoot);
    CleanStays(states, events, i, j, c, c.mediaRoot);
    GuardsPassMeans(states[j], c);
  }

  /**
   So a run can be retried wherever it crashes, at every one of its points, unless it is
   overtaken. What a run that crashes in planning had not read yet, the retry has to read.
   */
  lemma CrashIsRetried(states: seq<World>, events: seq<Event>, i: nat, j: nat, p: Pid)
    requires Reachable(states, events) && i <= j < |states| && p in states[i].processes
    ensures var c, at := states[i].processes[p].config, states[i].processes[p].at;
            var d := DatabaseOf(states[j], c);
            GuardsPass(states[j], c) <==>
              && !Overtaken(states[j], c)
              && (TargetRead(at) || CleanTarget(d))
              && (ReportRead(at) || CleanRoot(d, DirectoryAt(states[j], c.reportRoot), MarkerOf(c, c.reportRoot)))
              && (MediaRead(at) || CleanRoot(d, DirectoryAt(states[j], c.mediaRoot), MarkerOf(c, c.mediaRoot)))
  {
    var c := states[i].processes[p].config;
    InvariantThroughout(states, events, i);
    assert SoundIn(states[i], p);
    CleanStays(states, events, i, j, c, c.reportRoot);
    CleanStays(states, events, i, j, c, c.mediaRoot);
    GuardsPassMeans(states[j], c);
  }

  /** No live run is writing the marker of `root`. */
  predicate Abandoned(w: World, root: Path) {
    DirectoryAt(w, root).marker.Torn? && forall p <- w.processes :: !WritesAt(w.processes[p], root)
  }

  lemma {:induction false} AbandonedForever(states: seq<World>, events: seq<Event>, i: nat, j: nat, root: Path)
    requires Reachable(states, events) && i <= j < |states| && Abandoned(states[i], root)
    ensures Abandoned(states[j], root)
  {
    if j > i {
      AbandonedForever(states, events, i, j - 1, root);
      SoundStep(states, events, j - 1);
      var w, e := states[j - 1], events[j - 1];
      DirectoryStep(w, e, root);
      forall p <- states[j].processes ensures !WritesAt(states[j].processes[p], root) {
        if p == e.p {
          if WritesAt(states[j].processes[p], root) { NewWriterSawNone(w, e, root); }
        } else {
          ProcessStep(w, e, p);
        }
      }
    }
  }

  /**
   The way a run overtakes itself: a crash between creating a marker file and writing it.
   The empty file cannot be parsed, so from then on every run of every configuration with
   that root is refused, until someone removes it by hand.
   */
  lemma TornMarkerBlocksForever(
    states: seq<World>, events: seq<Event>, i: nat, j: nat, p: Pid, root: Path, c: Config)
    requires Reachable(states, events) && i < j < |states|
    requires p in states[i].processes && WritesAt(states[i].processes[p], root) && events[i] == End(p)
    requires root == c.reportRoot || root == c.mediaRoot
    ensures !GuardsPass(states[j], c)
  {
    SoundStep(states, events, i);
    WriterSeesTorn(states[i], p, root);
    var w' := states[i + 1];
    forall q | q in w'.processes ensures !WritesAt(w'.processes[q], root) {
      ProcessStep(states[i], events[i], q);
    }
    assert Abandoned(w', root);
    AbandonedForever(states, events, i + 1, j, root);
  }

  // ---------------------------------------------------------------------------
  // Who owns a database, and the lock
  // ---------------------------------------------------------------------------

  /** The step gives an owned database another owner. */
  predicate Replaces(w: World, e: Event, c: Config)
    requires Possible(w, e)
  {
    DatabaseOf(w, c).comment.Some? && DatabaseOf(Next(w, e), c).comment != DatabaseOf(w, c).comment
  }

  /**
   The only step that ever replaces an owner, in any world: the comment of a run that found
   the target without one, when another owner has been set meanwhile.
   */
  lemma ReplacesExactly(w: World, e: Event, c: Config)
    requires Possible(w, e)
    ensures Replaces(w, e, c) <==>
              && e.SetComment? && !w.processes[e.p].owned
              && w.processes[e.p].config.databaseName == c.databaseName
              && DatabaseOf(w, c).comment.Some?
              && DatabaseOf(w, c).comment != Some(OwnerOf(w.processes[e.p].config))
  {
  }

  /** Process `p` has found the target without an owner and has not set its own comment yet. */
  predicate Unowned(w: World, p: Pid, c: Config) {
    && p in w.processes && w.processes[p].config.databaseName == c.databaseName && !w.processes[p].owned
    && Guarded(w.processes[p].at) && !w.processes[p].at.Locked?
  }

  lemma RaceStep(w: World, e: Event, p: Pid, c: Config)
    requires Possible(w, e) && Unowned(Next(w, e), p, c) && DatabaseOf(Next(w, e), c).comment.Some?
    ensures Unowned(w, p, c)
    ensures DatabaseOf(w, c).lock != Some(p) ==> DatabaseOf(Next(w, e), c).lock != Some(p)
    ensures DatabaseOf(w, c).comment.Some? || (e.SetComment? && e.p != p)
    ensures DatabaseOf(w, c).comment.None? ==>
              e.p in w.processes && DatabaseOf(Next(w, e), c).lock == DatabaseOf(w, c).lock
              && w.processes[e.p].config.databaseName == c.databaseName && w.processes[e.p].at.RootsClaimed?
  {
  }

  /**
   Another run's owner comes between the check and the comment of `p` only if one of the two does
   not hold the lock.
   */
  lemma {:induction false} RivalSetTheOwner(states: seq<World>, events: seq<Event>, i: nat, p: Pid, c: Config)
    returns (m: nat)
    requires Reachable(states, events) && i < |states|
    requires Unowned(states[i], p, c) && DatabaseOf(states[i], c).comment.Some?
    ensures m < i && events[m].SetComment? && events[m].p != p && events[m].p in states[m].processes
    ensures var rival := states[m].processes[events[m].p];
            rival.config.databaseName == c.databaseName && rival.at.RootsClaimed?
    ensures DatabaseOf(states[m], c).lock != Some(events[m].p) || DatabaseOf(states[i], c).lock != Some(p)
  {
    assert StepAt(states, events, i - 1);
    RaceStep(states[i - 1], events[i - 1], p, c);
    if DatabaseOf(states[i - 1], c).comment.Some? {
      m := RivalSetTheOwner(states, events, i - 1, p, c);
    } else {
      m := i - 1;
    }
  }

  lemma LockStep(w: World, e: Event, p: Pid)
    requires Possible(w, e) && p in Next(w, e).processes && Guarded(Next(w, e).processes[p].at)
    requires DatabaseOf(Next(w, e), Next(w, e).processes[p].config).lock != Some(p)
    ensures p in w.processes && Guarded(w.processes[p].at) && w.processes[p].config == Next(w, e).processes[p].config
    ensures DatabaseOf(w, w.processes[p].config).lock != Some(p) || e == LoseLock(p)
  {
    if e.p == p {
      OwnLockStep(w, e);
    } else {
      ProcessStep(w, e, p);
      OthersLockStep(w, e, p);
    }
  }

  lemma OwnLockStep(w: World, e: Event)
    requires Possible(w, e) && e.p in Next(w, e).processes && Guarded(Next(w, e).processes[e.p].at)
    requires DatabaseOf(Next(w, e), Next(w, e).processes[e.p].config).lock != Some(e.p)
    ensures e.p in w.processes && Guarded(w.processes[e.p].at)
    ensures w.processes[e.p].config == Next(w, e).processes[e.p].config
    ensures DatabaseOf(w, w.processes[e.p].config).lock != Some(e.p) || e == LoseLock(e.p)
  {
  }

  lemma OthersLockStep(w: World, e: Event, p: Pid)
    requires Possible(w, e) && e.p != p && p in w.processes
    ensures DatabaseOf(w, w.processes[p].config).lock == Some(p) ==>
              DatabaseOf(Next(w, e), w.processes[p].config).lock == Some(p)
  {
  }

  /** A run without its lock between the two points has lost it to the timeout there. */
  lemma {:induction false} LockWasLost(states: seq<World>, events: seq<Event>, i: nat, p: Pid) returns (l: nat)
    requires Reachable(states, events) && i < |states|
    requires p in states[i].processes && Guarded(states[i].processes[p].at)
    requires DatabaseOf(states[i], states[i].processes[p].config).lock != Some(p)
    ensures l < i && events[l] == LoseLock(p) && !LockKept(states[l], events[l])
  {
    assert StepAt(states, events, i - 1);
    LockStep(states[i - 1], events[i - 1], p);
    if DatabaseOf(states[i - 1], states[i - 1].processes[p].config).lock != Some(p) {
      l := LockWasLost(states, events, i - 1, p);
    } else {
      l := i - 1;
    }
  }

  /**
   Over every run from the start, with or without timeouts: an owner is replaced only after
   a rival on the same database has set its owner between the check and the comment of the
   replacing run, and one of the two had lost its lock at a guarded point. Which of them
   does not matter: the replacing run itself may still hold the lock.
   */
  lemma ReplacementNeedsLostLock(states: seq<World>, events: seq<Event>, i: nat, c: Config) returns (m: nat, l: nat)
    requires Reachable(states, events) && i < |events|
    requires Possible(states[i], events[i]) && Replaces(states[i], events[i], c)
    ensures m < i && events[m].SetComment? && events[m].p != events[i].p
    ensures l < i && !LockKept(states[l], events[l])
    ensures events[l] == LoseLock(events[i].p) || events[l] == LoseLock(events[m].p)
  {
    var p := events[i].p;
    ReplacesExactly(states[i], events[i], c);
    m := RivalSetTheOwner(states, events, i, p, c);
    if DatabaseOf(states[i], c).lock != Some(p) {
      l := LockWasLost(states, events, i, p);
    } else {
      l := LockWasLost(states, events, m, events[m].p);
    }
  }

  /** No lock is lost before state `n` at a point where its run relies on it. */
  ghost predicate NoTimeouts(states: seq<World>, events: seq<Event>, n: nat)
    requires n <= |events| < |states|
  {
    forall l | 0 <= l < n :: LockKept(states[l], events[l])
  }

  /**
   As long as no lock is lost at a guarded point, an owner once set is never replaced. That a
   database without owner gains nothing and that complete markers stay needs no lock at all.
   */
  lemma {:induction false} OwnershipNeverChanges(
    states: seq<World>, events: seq<Event>, i: nat, j: nat, c: Config, root: Path)
    requires Reachable(states, events) && i <= j < |states|
    ensures NoTimeouts(states, events, j) && DatabaseOf(states[i], c).comment.Some? ==>
              DatabaseOf(states[j], c).comment == DatabaseOf(states[i], c).comment
    ensures DatabaseOf(states[j], c).comment.None? ==>
              && DatabaseOf(states[i], c).comment.None?
              && DatabaseOf(states[j], c).objects == DatabaseOf(states[i], c).objects
    ensures DirectoryAt(states[i], root).marker.Complete? ==>
              DirectoryAt(states[j], root).marker == DirectoryAt(states[i], root).marker
  {
    OwnedStaysOwned(states, events, i, j, c);
    MarkersStay(states, events, i, j, root);
    if j > i && NoTimeouts(states, events, j) {
      OwnershipNeverChanges(states, events, i, j - 1, c, root);
      OwnedStaysOwned(states, events, i, j - 1, c);
      assert StepAt(states, events, j - 1);
      if Replaces(states[j - 1], events[j - 1], c) {
        var _, l := ReplacementNeedsLostLock(states, events, j - 1, c);
      }
    }
  }

  /**
   From the ownership comment on, a configuration passes its guards in every later state
   exactly while the comment is its own; so always, if no lock is lost at a guarded point.
   */
  lemma OwnedTargetsStayReachable(states: seq<World>, events: seq<Event>, i: nat, j: nat, p: Pid)
    requires Reachable(states, events) && i <= j < |states|
    requires p in states[i].processes && states[i].processes[p].at.Staging?
    ensures var c := states[i].processes[p].config;
            GuardsPass(states[j], c) <==> DatabaseOf(states[j], c).comment == Some(OwnerOf(c))
    ensures NoTimeouts(states, events, j) ==> GuardsPass(states[j], states[i].processes[p].config)
  {
    var c := states[i].processes[p].config;
    InvariantThroughout(states, events, i);
    assert SoundIn(states[i], p);
    OwnershipNeverChanges(states, events, i, j, c, c.reportRoot);
    OwnershipNeverChanges(states, events, i, j, c, c.mediaRoot);
    if NoTimeouts(states, events, j) && DatabaseOf(states[i], c).comment != Some(OwnerOf(c)) {
      var m := ForeignOwnerWasSet(states, events, i, p);
      var _, l := ReplacementNeedsLostLock(states, events, m, c);
    }
  }

  // ---------------------------------------------------------------------------
  // Stages and the owner they write under
  // ---------------------------------------------------------------------------

  /** The run has seen its own comment on its database, or set it. */
  predicate Claimant(s: Process) {
    s.owned || s.at.Staging?
  }

  predicate SeesOwn(w: World, s: Process) {
    DatabaseOf(w, s.config).comment == Some(OwnerOf(s.config))
  }

  lemma ClaimantStep(w: World, e: Event, p: Pid)
    requires Possible(w, e) && p in Next(w, e).processes
    requires Claimant(Next(w, e).processes[p]) && !SeesOwn(Next(w, e), Next(w, e).processes[p])
    ensures p in w.processes && Claimant(w.processes[p]) && w.processes[p].config == Next(w, e).processes[p].config
    ensures SeesOwn(w, w.processes[p]) ==> Replaces(w, e, w.processes[p].config)
  {
  }

  /** A run that has claimed its database and does not see its own comment has been replaced as owner. */
  lemma {:induction false} ForeignOwnerWasSet(states: seq<World>, events: seq<Event>, i: nat, p: Pid) returns (m: nat)
    requires Reachable(states, events) && i < |states| && p in states[i].processes
    requires Claimant(states[i].processes[p]) && !SeesOwn(states[i], states[i].processes[p])
    ensures m < i && Possible(states[m], events[m])
    ensures Replaces(states[m], events[m], states[i].processes[p].config)
  {
    assert StepAt(states, events, i - 1);
    ClaimantStep(states[i - 1], events[i - 1], p);
    if SeesOwn(states[i - 1], states[i - 1].processes[p]) {
      m := i - 1;
    } else {
      m := ForeignOwnerWasSet(states, events, i - 1, p);
    }
  }

  /**
   Over every run: a stage written under another owner's comment comes after a step that
   replaced the owner, and that one after a lock was lost at a guarded point.
   */
  lemma ForeignStageNeedsLostLock(states: seq<World>, events: seq<Event>, i: nat) returns (m: nat, l: nat)
    requires Reachable(states, events) && i < |events| && events[i].Stage? && events[i].p in states[i].processes
    requires !SeesOwn(states[i], states[i].processes[events[i].p])
    ensures l < m < i && Possible(states[m], events[m])
    ensures Replaces(states[m], events[m], states[i].processes[events[i].p].config)
    ensures !LockKept(states[l], events[l])
  {
    assert StepAt(states, events, i);
    m := ForeignOwnerWasSet(states, events, i, events[i].p);
    var rival;
    rival, l := ReplacementNeedsLostLock(states, events, m, states[i].processes[events[i].p].config);
  }

  /** So, unless a lock was lost before, stages are written only under the writer's own comment. */
  lemma StagesWriteOnlyOwnedTargets(states: seq<World>, events: seq<Event>, i: nat)
    requires Reachable(states, events) && i < |events| && events[i].Stage? && NoTimeouts(states, events, i)
    ensures events[i].p in states[i].processes
    ensures var c := states[i].processes[events[i].p].config;
            DatabaseOf(states[i], c).comment == Some(OwnerOf(c)) == DatabaseOf(states[i + 1], c).comment
  {
    assert StepAt(states, events, i);
    if !SeesOwn(states[i], states[i].processes[events[i].p]) {
      var m, l := ForeignStageNeedsLostLock(states, events, i);
    }
  }

  /** Every run that writes stages sees its own comment. */
  ghost predicate StagersOwn(w: World) {
    forall p <- w.processes :: w.processes[p].at.Staging? ==> SeesOwn(w, w.processes[p])
  }

  predicate TakesFromStager(w: World, e: Event, p: Pid)
    requires Possible(w, e)
  {
    p in w.processes && w.processes[p].at.Staging? && Replaces(w, e, w.processes[p].config)
  }

  /** The step goes on to the stages without looking again whether the database is still its own. */
  predicate StagesUnowned(w: World, e: Event)
    requires Possible(w, e)
  {
    e.SetComment? && w.processes[e.p].owned && !SeesOwn(w, w.processes[e.p])
  }

  ghost predicate Breaks(w: World, e: Event)
    requires Possible(w, e)
  {
    StagesUnowned(w, e) || exists p :: TakesFromStager(w, e, p)
  }

  lemma StagerStep(w: World, e: Event, p: Pid)
    requires Possible(w, e) && p in Next(w, e).processes && Next(w, e).processes[p].at.Staging?
    requires StagersOwn(w)
    ensures SeesOwn(Next(w, e), Next(w, e).processes[p]) <==>
              !TakesFromStager(w, e, p) && !(p == e.p && StagesUnowned(w, e))
  {
  }

  lemma StagersOwnStep(w: World, e: Event)
    requires Possible(w, e) && StagersOwn(w)
    ensures StagersOwn(Next(w, e)) <==> !Breaks(w, e)
  {
    var w' := Next(w, e);
    forall p <- w'.processes | w'.processes[p].at.Staging?
      ensures SeesOwn(w', w'.processes[p]) <==> !TakesFromStager(w, e, p) && !(p == e.p && StagesUnowned(w, e))
    {
      StagerStep(w, e, p);
    }
    forall p | TakesFromStager(w, e, p) ensures p in w'.processes && w'.processes[p].at.Staging? {
      ReplacesExactly(w, e, w.processes[p].config);
      ProcessStep(w, e, p);
    }
    if StagesUnowned(w, e) {
      assert e.p in w'.processes && w'.processes[e.p].at.Staging?;
    }
  }

  /** Step `m` of the run breaks the rule. */
  ghost predicate BreaksAt(states: seq<World>, events: seq<Event>, m: nat)
    requires m < |events| < |states|
  {
    Possible(states[m], events[m]) && Breaks(states[m], events[m])
  }

  lemma StagersOwnAt(states: seq<World>, events: seq<Event>, m: nat)
    requires Reachable(states, events) && m < |events| && StagersOwn(states[m])
    ensures StagersOwn(states[m + 1]) <==> !BreaksAt(states, events, m)
  {
    assert StepAt(states, events, m);
    StagersOwnStep(states[m], events[m]);
  }

  /**
   Over every run, with or without lost locks: up to state `n` every run that writes stages
   sees its own comment if and only if, before, no step replaced the owner of a database in
   which stages were being written, and no run that had found its own comment went on to its
   stages under another one.
   */
  lemma {:induction false} StagesOwnedExactly(states: seq<World>, events: seq<Event>, n: nat)
    requires Reachable(states, events) && n < |states|
    ensures (forall j | 0 <= j <= n :: StagersOwn(states[j])) <==>
            (forall m | 0 <= m < n :: !BreaksAt(states, events, m))
  {
    if n > 0 {
      StagesOwnedExactly(states, events, n - 1);
      if StagersOwn(states[n - 1]) {
        StagersOwnAt(states, events, n - 1);
      }
    }
  }
}
