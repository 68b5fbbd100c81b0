/**
 A schedule of the rebuild model, from an empty world, in which a lost lock costs a run its
 ownership (apps/api/src/cli/disposable-rebuild.ts:406-430).
 */
module RebuildSchedules {
  import opened Prelude
  import opened RebuildOwnership
  import opened RebuildRuns

  /** A run from an initial world that has come to `w`. */
  ghost predicate Reaches(states: seq<World>, events: seq<Event>, w: World) {
    Run(states, events) && Initial(states[0]) && states[|events|] == w
  }

  lemma Extend(
    states: seq<World>, events: seq<Event>, w: World, e: Event)
    returns (longer: seq<World>, more: seq<Event>)
    requires Reaches(states, events, w) && Possible(w, e)
    ensures Reaches(longer, more, Next(w, e)) && more == events + [e] && longer == states + [Next(w, e)]
  {
    longer, more := states + [Next(w, e)], events + [e];
    forall i | 0 <= i < |more| ensures StepAt(longer, more, i) {
      if i < |events| {
        assert StepAt(states, events, i);
        assert longer[i] == states[i] && longer[i + 1] == states[i + 1] && more[i] == events[i];
      }
    }
  }

  /** Nobody has touched the configuration's target and roots, and `p` is free. */
  predicate Untouched(w: World, p: Pid, c: Config) {
    && p !in w.processes && c.reportRoot != c.mediaRoot
    && DatabaseOf(w, c) == Database(None, 0, None)
    && DirectoryAt(w, c.reportRoot) == Directory(Missing, false)
    && DirectoryAt(w, c.mediaRoot) == Directory(Missing, false)
  }

  /** Since `w0`, only `p` has moved: it is at `at`, and its database is still without an owner. */
  ghost predicate Moved(
    w0: World, w: World, p: Pid, c: Config, at: Point, lock: Option<Pid>, report: Marker, media: Marker)
  {
    && c.reportRoot != c.mediaRoot
    && w.processes == w0.processes[p := Process(c, at, false)]
    && DatabaseOf(w, c) == Database(None, 0, lock)
    && DirectoryAt(w, c.reportRoot) == Directory(report, false)
    && DirectoryAt(w, c.mediaRoot) == Directory(media, false)
    && forall root | root != c.reportRoot && root != c.mediaRoot :: DirectoryAt(w, root) == DirectoryAt(w0, root)
  }

  lemma StartMoves(w: World, p: Pid, c: Config)
    requires Untouched(w, p, c)
    ensures Possible(w, Start(p, c)) && Moved(w, Next(w, Start(p, c)), p, c, Submitted, None, Missing, Missing)
  {
  }

  lemma LockMoves(w0: World, w: World, p: Pid, c: Config)
    requires Moved(w0, w, p, c, Planned, None, Missing, Missing)
    ensures Possible(w, TryLock(p)) && Moved(w0, Next(w, TryLock(p)), p, c, Locked, Some(p), Missing, Missing)
  {
  }

  lemma TargetMoves(w0: World, w: World, p: Pid, c: Config, at: Point, lock: Option<Pid>)
    requires (at.Submitted? || at.Locked?) && Moved(w0, w, p, c, at, lock, Missing, Missing)
    ensures Possible(w, CheckTarget(p))
    ensures Moved(w0, Next(w, CheckTarget(p)), p, c, Passed(at), lock, Missing, Missing)
  {
  }

  lemma RootMoves(w0: World, w: World, p: Pid, c: Config, at: Point, lock: Option<Pid>)
    requires at.TargetSeen? || at.ReportSeen? || at.TargetChecked? || at.ReportChecked?
    requires Moved(w0, w, p, c, at, lock, Missing, Missing)
    ensures Possible(w, CheckRoot(p))
    ensures Moved(w0, Next(w, CheckRoot(p)), p, c, Passed(at), lock, Missing, Missing)
  {
  }

  lemma ReportMoves(w0: World, w: World, p: Pid, c: Config) returns (w': World)
    requires Moved(w0, w, p, c, Checked, Some(p), Missing, Missing)
    ensures Possible(w, OpenMarker(p)) && Possible(Next(w, OpenMarker(p)), WriteMarker(p))
    ensures w' == Next(Next(w, OpenMarker(p)), WriteMarker(p))
    ensures Moved(w0, w', p, c, ReportClaimed, Some(p), MarkerOf(c, c.reportRoot), Missing)
  {
    assert Moved(w0, Next(w, OpenMarker(p)), p, c, WritingReport, Some(p), Torn, Missing);
    w' := Next(Next(w, OpenMarker(p)), WriteMarker(p));
  }

  lemma MediaMoves(w0: World, w: World, p: Pid, c: Config) returns (w': World)
    requires Moved(w0, w, p, c, ReportClaimed, Some(p), MarkerOf(c, c.reportRoot), Missing)
    ensures Possible(w, OpenMarker(p)) && Possible(Next(w, OpenMarker(p)), WriteMarker(p))
    ensures w' == Next(Next(w, OpenMarker(p)), WriteMarker(p))
    ensures Moved(w0, w', p, c, RootsClaimed, Some(p), MarkerOf(c, c.reportRoot), MarkerOf(c, c.mediaRoot))
  {
    assert Moved(w0, Next(w, OpenMarker(p)), p, c, WritingMedia, Some(p), MarkerOf(c, c.reportRoot), Torn);
    w' := Next(Next(w, OpenMarker(p)), WriteMarker(p));
  }

  lemma TimeoutMoves(w0: World, w: World, p: Pid, c: Config)
    requires Moved(w0, w, p, c, RootsClaimed, Some(p), MarkerOf(c, c.reportRoot), MarkerOf(c, c.mediaRoot))
    ensures Possible(w, LoseLock(p))
    ensures var report, media := MarkerOf(c, c.reportRoot), MarkerOf(c, c.mediaRoot);
            Moved(w0, Next(w, LoseLock(p)), p, c, RootsClaimed, None, report, media)
  {
  }

  /** The three checks of planning, or the same three under the lock. */
  lemma Checks(
    states: seq<World>, events: seq<Event>, w0: World, w: World, p: Pid, c: Config, at: Point, lock: Option<Pid>)
    returns (longer: seq<World>, more: seq<Event>, after: World)
    requires Reaches(states, events, w) && (at.Submitted? || at.Locked?)
    requires Moved(w0, w, p, c, at, lock, Missing, Missing)
    ensures Reaches(longer, more, after)
    ensures Moved(w0, after, p, c, if at.Submitted? then Planned else Checked, lock, Missing, Missing)
  {
    TargetMoves(w0, w, p, c, at, lock);
    longer, more := Extend(states, events, w, CheckTarget(p));
    after := Next(w, CheckTarget(p));
    RootMoves(w0, after, p, c, Passed(at), lock);
    longer, more := Extend(longer, more, after, CheckRoot(p));
    after := Next(after, CheckRoot(p));
    RootMoves(w0, after, p, c, Passed(Passed(at)), lock);
    longer, more := Extend(longer, more, after, CheckRoot(p));
    after := Next(after, CheckRoot(p));
  }

  /** A run by itself, as far as the checks under the lock. */
  lemma Enters(states: seq<World>, events: seq<Event>, w0: World, p: Pid, c: Config)
    returns (longer: seq<World>, more: seq<Event>, w: World)
    requires Reaches(states, events, w0) && Untouched(w0, p, c)
    ensures Reaches(longer, more, w) && Moved(w0, w, p, c, Checked, Some(p), Missing, Missing)
  {
    StartMoves(w0, p, c);
    longer, more := Extend(states, events, w0, Start(p, c));
    longer, more, w := Checks(longer, more, w0, Next(w0, Start(p, c)), p, c, Submitted, None);
    LockMoves(w0, w, p, c);
    longer, more := Extend(longer, more, w, TryLock(p));
    longer, more, w := Checks(longer, more, w0, Next(w, TryLock(p)), p, c, Locked, Some(p));
  }

  /** And on to the point before its ownership comment, with or without the lock. */
  lemma Claims(states: seq<World>, events: seq<Event>, w0: World, p: Pid, c: Config, keepsLock: bool)
    returns (longer: seq<World>, more: seq<Event>, w: World)
    requires Reaches(states, events, w0) && Untouched(w0, p, c)
    ensures Reaches(longer, more, w)
    ensures var report, media := MarkerOf(c, c.reportRoot), MarkerOf(c, c.mediaRoot);
            Moved(w0, w, p, c, RootsClaimed, if keepsLock then Some(p) else None, report, media)
  {
    longer, more, w := Enters(states, events, w0, p, c);
    var w1 := ReportMoves(w0, w, p, c);
    longer, more := Extend(longer, more, w, OpenMarker(p));
    longer, more := Extend(longer, more, Next(w, OpenMarker(p)), WriteMarker(p));
    w := MediaMoves(w0, w1, p, c);
    longer, more := Extend(longer, more, w1, OpenMarker(p));
    longer, more := Extend(longer, more, Next(w1, OpenMarker(p)), WriteMarker(p));
    if !keepsLock {
      TimeoutMoves(w0, w, p, c);
      longer, more := Extend(longer, more, w, LoseLock(p));
      w := Next(w, LoseLock(p));
    }
  }

  /** Both configurations name the same database, and no directory twice. */
  predicate Rivals(mine: Config, theirs: Config) {
    && mine.databaseName == theirs.databaseName
    && mine.reportRoot != mine.mediaRoot && theirs.reportRoot != theirs.mediaRoot
    && {mine.reportRoot, mine.mediaRoot} !! {theirs.reportRoot, theirs.mediaRoot}
  }

  /**
   The lock's transaction of `p` times out before its comment; `q` checks the same database,
   still without an owner; both then set their comments, and the second replaces the first.
   It happens whether `q` still holds the lock or has lost its own as well.
   */
  lemma LostLockOverwritesOwner(p: Pid, q: Pid, mine: Config, theirs: Config, keepsLock: bool)
    returns (states: seq<World>, events: seq<Event>, i: nat)
    requires p != q && Rivals(mine, theirs)
    ensures Run(states, events) && Initial(states[0]) && |events| == i + 1
    ensures events[i] == SetComment(q) && Possible(states[i], events[i]) && Replaces(states[i], events[i], mine)
    ensures DatabaseOf(states[i], mine) == Database(Some(OwnerOf(mine)), 0, if keepsLock then Some(q) else None)
    ensures DatabaseOf(states[i + 1], mine).objects == 0
    ensures DatabaseOf(states[i + 1], mine).comment == Some(OwnerOf(theirs)) && OwnerOf(theirs) != OwnerOf(mine)
    ensures p in states[i + 1].processes && states[i + 1].processes[p] == Process(mine, Staging, false)
  {
    var w0 := World(map[], map[], map[]);
    states, events := [w0], [];
    var w1, w2;
    states, events, w1 := Claims(states, events, w0, p, mine, false);
    assert Untouched(w1, q, theirs);
    states, events, w2 := Claims(states, events, w1, q, theirs, keepsLock);
    assert w2.processes == map[p := Process(mine, RootsClaimed, false), q := Process(theirs, RootsClaimed, false)];
    states, events := Extend(states, events, w2, SetComment(p));
    var w3 := Next(w2, SetComment(p));
    i := |events|;
    assert Possible(w3, SetComment(q));
    states, events := Extend(states, events, w3, SetComment(q));
  }

  /** And then the first run goes on with its stages, in a database that carries the other's comment. */
  lemma StageUnderForeignOwner(p: Pid, q: Pid, mine: Config, theirs: Config, keepsLock: bool)
    returns (states: seq<World>, events: seq<Event>, i: nat)
    requires p != q && Rivals(mine, theirs)
    ensures Reachable(states, events) && |events| == i + 1 && events[i] == Stage(p, 1, true, true)
    ensures p in states[i].processes && states[i].processes[p].config == mine
    ensures !SeesOwn(states[i], states[i].processes[p])
    ensures var d := DatabaseOf(states[i + 1], mine);
            d.objects == 1 && d.comment == Some(OwnerOf(theirs)) && OwnerOf(theirs) != OwnerOf(mine)
  {
    states, events, i := LostLockOverwritesOwner(p, q, mine, theirs, keepsLock);
    i := i + 1;
    ghost var w := states[i];
    states, events := Extend(states, events, w, Stage(p, 1, true, true));
  }
}
