/**
 The rebuild's guards and steps in terms of the three names of a configuration and of what
 stands in the database and the directories (apps/api/src/cli/disposable-rebuild.ts:94-142,
 406-446 and disposable-rebuild-safety.ts:15-30).
 */
module RebuildRules {
  import opened Prelude
  import opened RebuildOwnership
  import opened RebuildRuns

  /** The comment, and a marker, name everything they are to tell apart. */
  lemma OwnersExactly(a: Config, b: Config, r: Path, s: Path)
    ensures OwnerOf(a) == OwnerOf(b) <==>
              a.disposableId == b.disposableId && a.reportRoot == b.reportRoot && a.mediaRoot == b.mediaRoot
    ensures MarkerOf(a, r) == MarkerOf(b, s) <==>
              a.databaseName == b.databaseName && a.disposableId == b.disposableId && r == s
  {
  }

  /** The comment on the configuration's database is its own. */
  predicate OwnedBy(w: World, c: Config) {
    && c.databaseName in w.databases
    && w.databases[c.databaseName].comment == Some(DatabaseOwner(c.disposableId, c.reportRoot, c.mediaRoot))
  }

  /** There is no such database yet, or it has neither an owner nor objects. */
  predicate EmptyTarget(w: World, c: Config) {
    c.databaseName in w.databases ==>
      w.databases[c.databaseName].comment.None? && w.databases[c.databaseName].objects == 0
  }

  predicate EmptyRoot(w: World, root: Path) {
    root in w.directories ==> w.directories[root].marker.Missing? && !w.directories[root].contents
  }

  /** The root carries the configuration's marker, and contents only if they are allowed. */
  predicate OwnRoot(w: World, c: Config, root: Path, allowContents: bool) {
    && root in w.directories
    && w.directories[root].marker == Complete(c.databaseName, c.disposableId, root)
    && (w.directories[root].contents ==> allowContents)
  }

  /** The guards ask for this and for nothing else. */
  lemma GuardsExactly(w: World, c: Config)
    ensures GuardsPass(w, c) <==>
              && (OwnedBy(w, c) || EmptyTarget(w, c))
              && (EmptyRoot(w, c.reportRoot) || OwnRoot(w, c, c.reportRoot, OwnedBy(w, c)))
              && (EmptyRoot(w, c.mediaRoot) || OwnRoot(w, c, c.mediaRoot, OwnedBy(w, c)))
  {
  }

  /**
   While no lock is lost at a guarded point, all stages ever written to a database come from
   configurations that agree in identifier, report root and media root.
   */
  lemma OneOwnerPerDatabase(states: seq<World>, events: seq<Event>, i: nat, j: nat)
    requires Reachable(states, events) && i <= j < |events| && NoTimeouts(states, events, j)
    requires events[i].Stage? && events[j].Stage?
    ensures events[i].p in states[i].processes && events[j].p in states[j].processes
    ensures var a, b := states[i].processes[events[i].p].config, states[j].processes[events[j].p].config;
            a.databaseName == b.databaseName ==>
              a.disposableId == b.disposableId && a.reportRoot == b.reportRoot && a.mediaRoot == b.mediaRoot
  {
    StagesWriteOnlyOwnedTargets(states, events, i);
    StagesWriteOnlyOwnedTargets(states, events, j);
    var a, b := states[i].processes[events[i].p].config, states[j].processes[events[j].p].config;
    OwnershipNeverChanges(states, events, i, j, a, a.reportRoot);
    OwnersExactly(a, b, a.reportRoot, b.reportRoot);
  }

  // ---------------------------------------------------------------------------
  // Step by step
  // ---------------------------------------------------------------------------

  /** A run goes through its points in one order, and can end at any of them; any unused process can start. */
  lemma PossibleExactly(w: World, e: Event)
    ensures Possible(w, e) <==>
              if e.Start? then e.p !in w.processes && e.config.reportRoot != e.config.mediaRoot
              else
                && e.p in w.processes
                && (e.CheckTarget? ==> w.processes[e.p].at in {Submitted, Locked})
                && (e.CheckRoot? ==> w.processes[e.p].at in {TargetSeen, ReportSeen, TargetChecked, ReportChecked})
                && (e.TryLock? ==> w.processes[e.p].at == Planned)
                && (e.OpenMarker? ==> w.processes[e.p].at in {Checked, ReportClaimed})
                && (e.WriteMarker? ==> w.processes[e.p].at in {WritingReport, WritingMedia})
                && (e.SetComment? ==> w.processes[e.p].at == RootsClaimed)
                && (e.Stage? ==> w.processes[e.p].at == Staging)
    ensures Possible(w, e) && e.Start? ==> Only(w, Next(w, e), e.p, Process(e.config, Submitted, false))
  {
  }

  /** Only the run's own place has changed. */
  predicate Only(w: World, w': World, p: Pid, s: Process) {
    w' == w.(processes := w.processes[p := s])
  }

  /** The run is gone, and so is its lock; nothing else has changed. */
  predicate Gone(w: World, w': World, p: Pid)
    requires p in w.processes
  {
    var name := w.processes[p].config.databaseName;
    && w'.processes == w.processes - {p} && w'.directories == w.directories
    && w'.databases == if name in w.databases && w.databases[name].lock == Some(p)
                       then w.databases[name := w.databases[name].(lock := None)] else w.databases
  }

  /** The root a run looks at or claims: the report root first. */
  predicate LooksAt(s: Process, root: Path) {
    root == if s.at in {TargetSeen, TargetChecked, Checked, WritingReport}
            then s.config.reportRoot else s.config.mediaRoot
  }

  /** A check of the target, in planning and under the lock, notes whether it is owned and goes on only if it may. */
  lemma TargetCheckExactly(w: World, p: Pid)
    requires Possible(w, CheckTarget(p))
    ensures var s, w' := w.processes[p], Next(w, CheckTarget(p));
            if OwnedBy(w, s.config) || EmptyTarget(w, s.config)
            then
              var at := if s.at == Submitted then TargetSeen else TargetChecked;
              Only(w, w', p, Process(s.config, at, OwnedBy(w, s.config)))
            else Gone(w, w', p)
  {
  }

  /** A check of a root allows contents only beside an owned target. */
  lemma RootCheckExactly(w: World, p: Pid, root: Path)
    requires Possible(w, CheckRoot(p)) && LooksAt(w.processes[p], root)
    ensures var s, w' := w.processes[p], Next(w, CheckRoot(p));
            if EmptyRoot(w, root) || OwnRoot(w, s.config, root, s.owned)
            then Only(w, w', p, s.(at := if s.at == TargetSeen then ReportSeen else if s.at == ReportSeen then Planned
                                         else if s.at == TargetChecked then ReportChecked else Checked))
            else Gone(w, w', p)
  {
  }

  /** The lock is taken only if nobody holds it. */
  lemma LockExactly(w: World, p: Pid)
    requires Possible(w, TryLock(p))
    ensures var s, w' := w.processes[p], Next(w, TryLock(p));
            var name := s.config.databaseName;
            if name in w.databases && w.databases[name].lock.Some? then Gone(w, w', p)
            else
              && name in w'.databases && w'.databases[name].lock == Some(p)
              && w'.databases[name].comment == (if name in w.databases then w.databases[name].comment else None)
              && w'.databases[name].objects == (if name in w.databases then w.databases[name].objects else 0)
              && w'.databases - {name} == w.databases - {name} && w'.directories == w.directories
              && w'.processes == w.processes[p := s.(at := Locked)]
  {
  }

  /** A marker is created empty where there is none, and then written; a marker of another owner ends the run. */
  lemma MarkerExactly(w: World, e: Event, root: Path)
    requires (e.OpenMarker? || e.WriteMarker?) && Possible(w, e) && LooksAt(w.processes[e.p], root)
    ensures var s, w' := w.processes[e.p], Next(w, e);
            var own := Complete(s.config.databaseName, s.config.disposableId, root);
            var found := if root in w.directories then w.directories[root] else Directory(Missing, false);
            var claimed := if s.at in {Checked, WritingReport} then ReportClaimed else RootsClaimed;
            var writing := if s.at == Checked then WritingReport else WritingMedia;
            if e.WriteMarker? then
              w' == w.(directories := w.directories[root := found.(marker := own)],
                       processes := w.processes[e.p := s.(at := claimed)])
            else if found.marker == Missing then
              w' == w.(directories := w.directories[root := found.(marker := Torn)],
                       processes := w.processes[e.p := s.(at := writing)])
            else if found.marker == own then Only(w, w', e.p, s.(at := claimed))
            else Gone(w, w', e.p)
  {
  }

  /** The comment is set once, with all three names, by a run that found the target without one. */
  lemma CommentExactly(w: World, p: Pid)
    requires Possible(w, SetComment(p))
    ensures var s, w' := w.processes[p], Next(w, SetComment(p));
            var name, c := s.config.databaseName, s.config;
            && w'.directories == w.directories && w'.processes == w.processes[p := s.(at := Staging)]
            && (s.owned ==> w'.databases == w.databases)
            && (!s.owned ==>
                  && name in w'.databases && w'.databases - {name} == w.databases - {name}
                  && w'.databases[name].comment == Some(DatabaseOwner(c.disposableId, c.reportRoot, c.mediaRoot))
                  && (name in w.databases ==>
                        w'.databases[name] == w.databases[name].(comment := w'.databases[name].comment)))
  {
  }

  /** A stage adds objects and files; an end, by whatever cause, only gives the lock back. */
  lemma StageAndEndExactly(w: World, e: Event)
    requires (e.Stage? || e.End? || e.LoseLock?) && Possible(w, e)
    ensures var s, w' := w.processes[e.p], Next(w, e);
            var name, c := s.config.databaseName, s.config;
            && (e.End? ==> Gone(w, w', e.p))
            && (e.LoseLock? ==> w'.processes == w.processes && Gone(w, w'.(processes := w.processes - {e.p}), e.p))
            && (e.Stage? ==>
                  && w'.processes == w.processes && w'.databases - {name} == w.databases - {name}
                  && name in w'.databases
                  && (name in w.databases ==>
                        w'.databases[name] == w.databases[name].(objects := w.databases[name].objects + e.created))
                  && forall root ::
                       DirectoryAt(w', root) == DirectoryAt(w, root).(
                         contents := || DirectoryAt(w, root).contents
                                     || (e.report && root == c.reportRoot) || (e.media && root == c.mediaRoot)))
  {
  }
}
