/**
 Who owns a disposable rebuild target (apps/api/src/cli/disposable-rebuild.ts:94-142,
 185-188, 406-438 and disposable-rebuild-safety.ts:15-30). Any number of runs of any
 configurations interleave; each step below is one guard, one database statement or one
 file call. A run makes its three checks twice: when it is planned and under the lock.
 A run can end at every point, by success, error or crash: `End`.
 */
module RebuildOwnership {
  import opened Prelude

  type Path = string
  type Pid = nat

  datatype Config = Config(databaseName: string, disposableId: string, reportRoot: Path, mediaRoot: Path)

  /** The database comment; the source hashes the two roots into it. */
  datatype DatabaseOwner = DatabaseOwner(disposableId: string, reportRoot: Path, mediaRoot: Path)

  /** disposable-owner.json: created empty, then written. */
  datatype Marker = Missing | Torn | Complete(databaseName: string, disposableId: string, root: Path)

  /** A directory: its marker, and whether it has any other entry. No directory looks like an empty one. */
  datatype Directory = Directory(marker: Marker, contents: bool)

  datatype Database = Database(comment: Option<DatabaseOwner>, objects: nat, lock: Option<Pid>)

  datatype Point =
    | Submitted | TargetSeen | ReportSeen | Planned | Locked | TargetChecked | ReportChecked | Checked
    | WritingReport | ReportClaimed | WritingMedia | RootsClaimed | Staging

  /** A run in progress; `owned` is what targetStatus found last, in planning or under the lock. */
  datatype Process = Process(config: Config, at: Point, owned: bool)

  datatype World = World(
    databases: map<string, Database>, directories: map<Path, Directory>, processes: map<Pid, Process>)

  function OwnerOf(c: Config): DatabaseOwner {
    DatabaseOwner(c.disposableId, c.reportRoot, c.mediaRoot)
  }

  function MarkerOf(c: Config, root: Path): Marker {
    Complete(c.databaseName, c.disposableId, root)
  }

  function DatabaseOf(w: World, c: Config): Database {
    if c.databaseName in w.databases then w.databases[c.databaseName] else Database(None, 0, None)
  }

  function DirectoryAt(w: World, root: Path): Directory {
    if root in w.directories then w.directories[root] else Directory(Missing, false)
  }

  /** targetStatus does not refuse: the target is owned by this configuration, or empty. */
  predicate TargetAccepted(d: Database, c: Config) {
    d.comment == Some(OwnerOf(c)) || (d.comment.None? && d.objects == 0)
  }

  /** inspectRoot does not refuse. */
  predicate RootAccepted(d: Directory, c: Config, root: Path, allowContents: bool) {
    match d.marker
    case Missing => !d.contents
    case Torn => false
    case Complete(_, _, _) => d.marker == MarkerOf(c, root) && (allowContents || !d.contents)
  }

  /** Every ownership guard of a new run of the configuration passes. */
  predicate GuardsPass(w: World, c: Config) {
    var d := DatabaseOf(w, c);
    var owned := d.comment == Some(OwnerOf(c));
    && TargetAccepted(d, c)
    && RootAccepted(DirectoryAt(w, c.reportRoot), c, c.reportRoot, owned)
    && RootAccepted(DirectoryAt(w, c.mediaRoot), c, c.mediaRoot, owned)
  }

  datatype Event =
    | Start(p: Pid, config: Config)
    | TryLock(p: Pid)
    | CheckTarget(p: Pid)
    | CheckRoot(p: Pid)
    | OpenMarker(p: Pid)
    | WriteMarker(p: Pid)
    | SetComment(p: Pid)
    | Stage(p: Pid, created: nat, report: bool, media: bool)
    | End(p: Pid)
    | LoseLock(p: Pid)   // the two-hour timeout of the lock's transaction

  predicate Possible(w: World, e: Event) {
    if e.Start? then e.p !in w.processes && e.config.reportRoot != e.config.mediaRoot
    else
      && e.p in w.processes
      && var at := w.processes[e.p].at;
         match e
         case TryLock(_) => at.Planned?
         case CheckTarget(_) => at.Submitted? || at.Locked?
         case CheckRoot(_) => at.TargetSeen? || at.ReportSeen? || at.TargetChecked? || at.ReportChecked?
         case OpenMarker(_) => at.Checked? || at.ReportClaimed?
         case WriteMarker(_) => at.WritingReport? || at.WritingMedia?
         case SetComment(_) => at.RootsClaimed?
         case Stage(_, _, _, _) => at.Staging?
         case _ => true
  }

  function Move(w: World, p: Pid, at: Point): World
    requires p in w.processes
  {
    w.(processes := w.processes[p := w.processes[p].(at := at)])
  }

  function SetDatabase(w: World, c: Config, d: Database): World {
    w.(databases := w.databases[c.databaseName := d])
  }

  function SetDirectory(w: World, root: Path, d: Directory): World {
    w.(directories := w.directories[root := d])
  }

  function Fill(w: World, root: Path): World {
    SetDirectory(w, root, DirectoryAt(w, root).(contents := true))
  }

  function Unlock(w: World, p: Pid): World
    requires p in w.processes
  {
    var c := w.processes[p].config;
    var d := DatabaseOf(w, c);
    if d.lock == Some(p) then SetDatabase(w, c, d.(lock := None)) else w
  }

  /** The run is over; its lock goes, everything else it wrote stays. */
  function Ended(w: World, p: Pid): World
    requires p in w.processes
  {
    var u := Unlock(w, p);
    u.(processes := u.processes - {p})
  }

  /** The point after a check that passes. */
  function Passed(at: Point): Point {
    match at
    case Submitted => TargetSeen
    case TargetSeen => ReportSeen
    case ReportSeen => Planned
    case Locked => TargetChecked
    case TargetChecked => ReportChecked
    case _ => Checked
  }

  /** The root a process is about to inspect or claim. */
  function CurrentRoot(s: Process): Path {
    match s.at
    case TargetSeen | TargetChecked | Checked | WritingReport => s.config.reportRoot
    case _ => s.config.mediaRoot
  }

  function Next(w: World, e: Event): World
    requires Possible(w, e)
  {
    if e.Start? then w.(processes := w.processes[e.p := Process(e.config, Submitted, false)])
    else
      var s := w.processes[e.p];
      var c := s.config;
      var d := DatabaseOf(w, c);
      match e
      case TryLock(p) =>
        if d.lock.None? then SetDatabase(Move(w, p, Locked), c, d.(lock := Some(p))) else Ended(w, p)
      case CheckTarget(p) =>
        if TargetAccepted(d, c)
        then w.(processes := w.processes[p := Process(c, Passed(s.at), d.comment == Some(OwnerOf(c)))])
        else Ended(w, p)
      case CheckRoot(p) =>
        if RootAccepted(DirectoryAt(w, CurrentRoot(s)), c, CurrentRoot(s), s.owned)
        then Move(w, p, Passed(s.at))
        else Ended(w, p)
      case OpenMarker(p) =>
        var root := CurrentRoot(s);
        var found := DirectoryAt(w, root);
        if found.marker.Missing? then
          SetDirectory(Move(w, p, if s.at.Checked? then WritingReport else WritingMedia), root, found.(marker := Torn))
        else if found.marker == MarkerOf(c, root) then
          Move(w, p, if s.at.Checked? then ReportClaimed else RootsClaimed)
        else Ended(w, p)
      case WriteMarker(p) =>
        var root := CurrentRoot(s);
        SetDirectory(Move(w, p, if s.at.WritingReport? then ReportClaimed else RootsClaimed), root,
                     DirectoryAt(w, root).(marker := MarkerOf(c, root)))
      case SetComment(p) =>
        var staging := Move(w, p, Staging);
        if s.owned then staging else SetDatabase(staging, c, d.(comment := Some(OwnerOf(c))))
      case Stage(p, created, report, media) =>
        var built := SetDatabase(w, c, d.(objects := d.objects + created));
        var reported := if report then Fill(built, c.reportRoot) else built;
        if media then Fill(reported, c.mediaRoot) else reported
      case End(p) => Ended(w, p)
      case LoseLock(p) => Unlock(w, p)
  }

  /** `states[i]` takes the step `events[i]`. */
  predicate StepAt(states: seq<World>, events: seq<Event>, i: nat)
    requires |states| == |events| + 1 && i < |events|
  {
    Possible(states[i], events[i]) && states[i + 1] == Next(states[i], events[i])
  }

  ghost predicate Run(states: seq<World>, events: seq<Event>) {
    |states| == |events| + 1 && forall i | 0 <= i < |events| :: StepAt(states, events, i)
  }

  /** Points at which the run relies on its lock: from taking it to the ownership comment. */
  predicate Guarded(at: Point) {
    !at.Submitted? && !at.TargetSeen? && !at.ReportSeen? && !at.Planned? && !at.Staging?
  }

  /** The lock's transaction does not time out at such a point. */
  predicate LockKept(w: World, e: Event) {
    e.LoseLock? && e.p in w.processes ==> !Guarded(w.processes[e.p].at)
  }

  /** What a stage leaves behind: new database objects, and files in the report or media root. */
  datatype StageEffect = StageEffect(created: nat, report: bool, media: bool)

  function Created(stages: seq<StageEffect>): nat {
    if stages == [] then 0 else Created(stages[..|stages| - 1]) + stages[|stages| - 1].created
  }

  /** Some stage writes into this root. */
  predicate Fills(stages: seq<StageEffect>, c: Config, root: Path) {
    exists s <- stages :: (s.report && root == c.reportRoot) || (s.media && root == c.mediaRoot)
  }

  lemma FillsOneMore(stages: seq<StageEffect>, c: Config, n: nat)
    requires n < |stages|
    ensures forall root ::
              Fills(stages[..n + 1], c, root) <==> Fills(stages[..n], c, root) || Fills([stages[n]], c, root)
    ensures Created(stages[..n + 1]) == Created(stages[..n]) + stages[n].created
  {
    assert stages[..n + 1] == stages[..n] + [stages[n]] && stages[..n + 1][..n] == stages[..n];
  }

  /** What stages have added to the database and to every directory. */
  ghost predicate Added(w: World, w': World, c: Config, stages: seq<StageEffect>) {
    && DatabaseOf(w', c).objects == DatabaseOf(w, c).objects + Created(stages)
    && forall root :: DirectoryAt(w', root).contents <==> DirectoryAt(w, root).contents || Fills(stages, c, root)
  }

  /** One run from start to end with nobody else at work, over the state it changes. */
  class RebuildHost {
    var databases: map<string, Database>
    var directories: map<Path, Directory>

    function State(): World
      reads this
    {
      World(databases, directories, map[])
    }

    constructor (w: World)
      ensures State() == w.(processes := map[])
    {
      databases, directories := w.databases, w.directories;
    }

    method AddContents(root: Path)
      modifies this`directories
      ensures directories == old(directories)[root := DirectoryAt(old(State()), root).(contents := true)]
    {
      directories := directories[root := DirectoryAt(State(), root).(contents := true)];
    }

    /** claimRebuildDirectory: exclusive creation, or a check of the marker that is there. */
    method ClaimRebuildDirectory(c: Config, root: Path) returns (ok: bool)
      modifies this`directories
      ensures ok <==> DirectoryAt(old(State()), root).marker in {Missing, MarkerOf(c, root)}
      ensures ok ==> DirectoryAt(State(), root) == DirectoryAt(old(State()), root).(marker := MarkerOf(c, root))
      ensures !ok ==> directories == old(directories)
      ensures forall other | other != root :: DirectoryAt(State(), other) == DirectoryAt(old(State()), other)
    {
      var found := DirectoryAt(State(), root);
      if found.marker.Missing? {
        directories := directories[root := found.(marker := Torn)];
        directories := directories[root := found.(marker := MarkerOf(c, root))];
        return true;
      }
      return found.marker == MarkerOf(c, root);
    }

    /** The stages: they add to an owned target and never touch who owns it. */
    method RunStages(c: Config, stages: seq<StageEffect>)
      requires Claimed(State(), c)
      modifies this
      ensures Claimed(State(), c) && TouchesOnly(old(State()), State(), c)
      ensures DatabaseOf(State(), c).lock == DatabaseOf(old(State()), c).lock
      ensures Added(old(State()), State(), c, stages)
    {
      for n := 0 to |stages|
        invariant Claimed(State(), c) && TouchesOnly(old(State()), State(), c)
        invariant DatabaseOf(State(), c).lock == DatabaseOf(old(State()), c).lock
        invariant Added(old(State()), State(), c, stages[..n])
      {
        FillsOneMore(stages, c, n);
        RunStage(c, stages[n]);
      }
      assert stages[..|stages|] == stages;
    }

    method RunStage(c: Config, effect: StageEffect)
      requires Claimed(State(), c)
      modifies this
      ensures Claimed(State(), c) && TouchesOnly(old(State()), State(), c)
      ensures DatabaseOf(State(), c).lock == DatabaseOf(old(State()), c).lock
      ensures Added(old(State()), State(), c, [effect])
    {
      assert [effect][..0] == [];
      var now := DatabaseOf(State(), c);
      databases := databases[c.databaseName := now.(objects := now.objects + effect.created)];
      if effect.report { AddContents(c.reportRoot); }
      if effect.media { AddContents(c.mediaRoot); }
    }

    /** claimRoots, when neither root refuses: report first. */
    method ClaimRoots(c: Config)
      requires c.reportRoot != c.mediaRoot
      requires DirectoryAt(State(), c.reportRoot).marker in {Missing, MarkerOf(c, c.reportRoot)}
      requires DirectoryAt(State(), c.mediaRoot).marker in {Missing, MarkerOf(c, c.mediaRoot)}
      modifies this`directories
      ensures forall root :: DirectoryAt(State(), root) ==
                if root == c.reportRoot || root == c.mediaRoot
                then DirectoryAt(old(State()), root).(marker := MarkerOf(c, root)) else DirectoryAt(old(State()), root)
    {
      var _ := ClaimRebuildDirectory(c, c.reportRoot);
      var _ := ClaimRebuildDirectory(c, c.mediaRoot);
    }

    /** The lock, the roots, and the comment if the target had none. */
    method Claim(p: Pid, c: Config)
      requires c.reportRoot != c.mediaRoot && GuardsPass(State(), c)
      modifies this
      ensures Claimed(State(), c) && DatabaseOf(State(), c).lock == Some(p)
      ensures TouchesOnly(old(State()), State(), c) && Added(old(State()), State(), c, [])
    {
      var d := DatabaseOf(State(), c);
      ClaimRoots(c);
      databases := databases[c.databaseName := d.(lock := Some(p))];
      if d.comment != Some(OwnerOf(c)) {
        databases := databases[c.databaseName := d.(lock := Some(p), comment := Some(OwnerOf(c)))];
      }
    }

    /** The guards and claims, in the source's order. */
    method Enter(p: Pid, c: Config) returns (entered: bool)
      requires c.reportRoot != c.mediaRoot
      modifies this
      ensures entered <==> GuardsPass(old(State()), c) && DatabaseOf(old(State()), c).lock.None?
      ensures !entered ==> State() == old(State())
      ensures entered ==> Claimed(State(), c) && DatabaseOf(State(), c).lock == Some(p)
      ensures TouchesOnly(old(State()), State(), c) && (entered ==> Added(old(State()), State(), c, []))
    {
      var d := DatabaseOf(State(), c);
      var owned := d.comment == Some(OwnerOf(c));
      if d.lock.Some? || !TargetAccepted(d, c) {
        return false;
      }
      if !RootAccepted(DirectoryAt(State(), c.reportRoot), c, c.reportRoot, owned) {
        return false;
      }
      if !RootAccepted(DirectoryAt(State(), c.mediaRoot), c, c.mediaRoot, owned) {
        return false;
      }
      Claim(p, c);
      return true;
    }

    /**
     executeDisposableRebuild: it goes through exactly when the guards pass and the lock is
     free, touches only its own database and roots, and can be repeated; otherwise it
     changes nothing.
     */
    method Execute(p: Pid, c: Config, stages: seq<StageEffect>) returns (done: bool)
      requires c.reportRoot != c.mediaRoot
      modifies this
      ensures done <==> GuardsPass(old(State()), c) && DatabaseOf(old(State()), c).lock.None?
      ensures !done ==> State() == old(State())
      ensures done ==> Claimed(State(), c) && DatabaseOf(State(), c).lock.None?
      ensures done ==> Added(old(State()), State(), c, stages)
      ensures TouchesOnly(old(State()), State(), c)
    {
      done := Enter(p, c);
      if done {
        RunStages(c, stages);
        databases := databases[c.databaseName := DatabaseOf(State(), c).(lock := None)];
      }
    }
  }

  /** The target and both roots are the configuration's own. */
  predicate Claimed(w: World, c: Config) {
    && DatabaseOf(w, c).comment == Some(OwnerOf(c))
    && DirectoryAt(w, c.reportRoot).marker == MarkerOf(c, c.reportRoot)
    && DirectoryAt(w, c.mediaRoot).marker == MarkerOf(c, c.mediaRoot)
  }

  /** No other database and no other directory differs between the two states. */
  ghost predicate TouchesOnly(w: World, w': World, c: Config) {
    && (forall n | n != c.databaseName :: n in w'.databases <==> n in w.databases)
    && (forall n | n != c.databaseName && n in w.databases :: w'.databases[n] == w.databases[n])
    && (forall root | root != c.reportRoot && root != c.mediaRoot :: DirectoryAt(w', root) == DirectoryAt(w, root))
  }
}
