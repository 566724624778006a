/**
 A polling file watcher: a fixed registry of tracked paths, each holding the
 last observed state, and a diff engine (`Step`) that turns the previous
 state and a fresh observation of the filesystem into the events and errors
 to send and the state to store. `Tick` applies the diff engine to every
 tracked path.

 Sending an event or an error is modelled as appending it to an output list;
 the filesystem calls are replaced by an `Observation` passed in per path.
 */
module FsWatcher {
  import opened Wrappers

  type Path = string

  /** Nanoseconds, as Go's `time.Duration`. */
  type Duration = int

  const DefaultInterval: Duration := 5_000_000_000
  const TestInterval: Duration := 50_000_000

  // ---------------------------------------------------------------------------
  // Operations and events
  // ---------------------------------------------------------------------------

  /** A set of file operations, as a 32-bit mask. */
  type Op = bv32

  const Create: Op := 1
  const Write: Op := 2
  const Remove: Op := 4

  /** Whether the operation set `o` holds any operation of `h`. */
  predicate Has(o: Op, h: Op): (r: bool)
    ensures r <==> h & o != 0
    ensures h != 0 && o & h == h ==> r
    ensures o & h == 0 ==> !r
  {
    o & h != 0
  }

  /** An event is named after the tracked path, never after a symlink target. */
  datatype Event = Event(name: Path, op: Op)

  /** The operation reported when something appears: `Create`, plus `Write` when it holds data. */
  function CreationOp(size: int): (o: Op)
    ensures Has(o, Create) && !Has(o, Remove)
    ensures Has(o, Write) <==> size > 0
    ensures o & !(Create | Write) == 0
  {
    if size > 0 then Create | Write else Create
  }

  // ---------------------------------------------------------------------------
  // Observations of the filesystem
  // ---------------------------------------------------------------------------

  /** Modification time, compared for equality only. */
  datatype ModTime = ModTime(stamp: int)

  /** The parts of an `os.FileInfo` the watcher reads. */
  datatype FileInfo = FileInfo(isSymlink: bool, size: int, modTime: ModTime)

  /** An error value returned by the operating system, passed through unchanged. */
  datatype Error = Error(description: string)

  /** Outcome of `os.Lstat(path)`. */
  datatype LstatResult = NotExist | OtherErr(err: Error) | Info(info: FileInfo)

  /** Outcome of `os.Readlink(path)`. */
  datatype ReadlinkResult = ReadlinkErr | Target(link: Path)

  /** Outcome of `os.Stat(target)`: a `*fs.PathError`, any other error, or the target's info. */
  datatype StatResult = TargetPathError | TargetOtherErr(err: Error) | TargetInfo(info: FileInfo)

  /**
   Everything one poll of one path may look at. `readlink` is consulted only
   when `lstat` reports a symlink and `stat` only when `readlink` succeeds.
   */
  datatype Observation = Observation(lstat: LstatResult, readlink: ReadlinkResult, stat: StatResult)

  /** `filepath.IsAbs`, `filepath.Dir` and `filepath.Join`, left uninterpreted. */
  datatype PathOps = PathOps(isAbs: Path -> bool, dir: Path -> Path, join: (Path, Path) -> Path)

  /** A link target read from the symlink at `path`, made absolute against the symlink's directory. */
  function ResolveTarget(ops: PathOps, path: Path, link: Path): Path
  {
    if ops.isAbs(link) then link else ops.join(ops.dir(path), link)
  }

  // ---------------------------------------------------------------------------
  // Tracked state
  // ---------------------------------------------------------------------------

  /**
   The stored state of one tracked path: its own `Lstat` info and, for a
   symlink, the resolved target and the target's `Stat` info.
   */
  datatype State = State(path: Path, info: Option<FileInfo>, target: Path, targetInfo: Option<FileInfo>)

  /** The state every path starts in, and the state a vanished path returns to. */
  function Unknown(path: Path): State
  {
    State(path, None, "", None)
  }

  /**
   The consistency of a stored state: nothing is known about a target unless
   the path was last seen as a symlink.
   */
  predicate StateInvariant(s: State)
  {
    && (s.info.None? ==> s.target == "" && s.targetInfo.None?)
    && (s.info.Some? && !s.info.value.isSymlink ==> s.target == "" && s.targetInfo.None?)
    && (s.targetInfo.Some? ==> s.info.Some? && s.info.value.isSymlink)
  }

  /** Size or modification time differ. */
  predicate Changed(a: FileInfo, b: FileInfo)
  {
    a.size != b.size || a.modTime != b.modTime
  }

  // ---------------------------------------------------------------------------
  // The diff engine
  // ---------------------------------------------------------------------------

  /** What one poll of one path sends and stores. */
  datatype StepResult = StepResult(state: State, events: seq<Event>, errors: seq<Error>)

  /**
   One poll of the tracked path `prev.path`, given the previous state `prev`
   and what the filesystem reports now. At most one event and at most one
   error are sent, never both, and every event is named after the tracked
   path. A failing `Lstat` (other than not-exist) and an unreadable symlink
   leave the stored state as it was.
   */
  function Step(prev: State, obs: Observation, ops: PathOps): (r: StepResult)
    ensures r.state.path == prev.path
    ensures forall i :: 0 <= i < |r.events| ==> r.events[i].name == prev.path
    ensures |r.events| <= 1 && |r.errors| <= 1
    ensures r.events == [] || r.errors == []
    ensures obs.lstat.NotExist? ==> r.state.info.None? && r.errors == []
    ensures obs.lstat.OtherErr? ==> r == StepResult(prev, [], [obs.lstat.err])
    ensures obs.lstat.Info? && obs.lstat.info.isSymlink && obs.readlink.ReadlinkErr? ==>
              r == StepResult(prev, [], [])
    ensures obs.lstat.Info? && !(obs.lstat.info.isSymlink && obs.readlink.ReadlinkErr?) ==>
              r.state.info == Some(obs.lstat.info)
    ensures obs.lstat.Info? && !obs.lstat.info.isSymlink ==> r.state.target == ""
    ensures obs.lstat.Info? && obs.lstat.info.isSymlink && obs.readlink.Target? && ops.isAbs(obs.readlink.link) ==>
              r.state.target == obs.readlink.link
    ensures obs.lstat.Info? && obs.lstat.info.isSymlink && obs.readlink.Target? && !ops.isAbs(obs.readlink.link) ==>
              r.state.target == ops.join(ops.dir(prev.path), obs.readlink.link)
  {
    match obs.lstat
    case NotExist =>
      VanishedStep(prev)
    case OtherErr(err) =>
      StepResult(prev, [], [err])
    case Info(info) =>
      if info.isSymlink then
        match obs.readlink
        case ReadlinkErr =>
          StepResult(prev, [], [])
        case Target(link) =>
          SymlinkStep(prev, info, ResolveTarget(ops, prev.path, link), obs.stat)
      else
        RegularFileStep(prev, info)
  }

  /**
   `Lstat` reports that the path does not exist: `Remove` is sent exactly when
   the path was seen before, and then the entry is cleared; otherwise nothing
   changes.
   */
  function VanishedStep(prev: State): (r: StepResult)
    ensures r.errors == []
    ensures r.events != [] <==> prev.info.Some?
    ensures prev.info.Some? ==> r.events == [Event(prev.path, Remove)] && r.state == Unknown(prev.path)
    ensures prev.info.None? ==> r.state == prev
  {
    if prev.info.Some? then StepResult(Unknown(prev.path), [Event(prev.path, Remove)], [])
    else StepResult(prev, [], [])
  }

  /**
   `Lstat` succeeds on a path that is not a symlink: a path not seen before
   is reported as created (and written when it holds data), a known one as
   written when its size or modification time changed. No target is kept.
   */
  function RegularFileStep(prev: State, info: FileInfo): (r: StepResult)
    ensures r.state == State(prev.path, Some(info), "", None)
    ensures r.errors == []
    ensures |r.events| <= 1
    ensures forall i :: 0 <= i < |r.events| ==> r.events[i].name == prev.path
    ensures prev.info.None? ==> r.events == [Event(prev.path, CreationOp(info.size))]
    ensures prev.info.Some? ==> (r.events != [] <==> Changed(prev.info.value, info))
    ensures prev.info.Some? && r.events != [] ==> r.events[0].op == Write
  {
    var path := prev.path;
    var events :=
      if prev.info.None? then [Event(path, CreationOp(info.size))]
      else if Changed(prev.info.value, info) then [Event(path, Write)]
      else [];
    StepResult(State(path, Some(info), "", None), events, [])
  }

  /**
   `Lstat` reports a symlink whose link reads as `target` (already resolved),
   and `stat` is the outcome of `Stat(target)`. Any path error means the
   target is gone: `Remove` if it was present. Another error is sent on the
   error list and forgets the target's info without an event. A target that
   appears is reported as created (and written when it holds data); a target
   present before and now is reported as written exactly when its path, size
   or modification time changed.
   */
  function SymlinkStep(prev: State, info: FileInfo, target: Path, stat: StatResult): (r: StepResult)
    ensures r.state == State(prev.path, Some(info), target, if stat.TargetInfo? then Some(stat.info) else None)
    ensures |r.events| <= 1 && |r.errors| <= 1
    ensures forall i :: 0 <= i < |r.events| ==> r.events[i].name == prev.path
    ensures r.errors != [] <==> stat.TargetOtherErr?
    ensures stat.TargetOtherErr? ==> r.errors == [stat.err] && r.events == []
    ensures stat.TargetPathError? ==>
              r.events == if prev.targetInfo.Some? then [Event(prev.path, Remove)] else []
    ensures stat.TargetInfo? && prev.targetInfo.None? ==> r.events == [Event(prev.path, CreationOp(stat.info.size))]
    ensures stat.TargetInfo? && prev.targetInfo.Some? ==>
              (r.events != [] <==> prev.target != target || Changed(prev.targetInfo.value, stat.info))
    ensures stat.TargetInfo? && prev.targetInfo.Some? && r.events != [] ==> r.events[0].op == Write
  {
    var path := prev.path;
    var targetInfo := if stat.TargetInfo? then Some(stat.info) else None;
    // any path error counts as the target being gone
    var removal := if stat.TargetPathError? && prev.targetInfo.Some? then [Event(path, Remove)] else [];
    var errors := if stat.TargetOtherErr? then [stat.err] else [];
    var change :=
      if prev.targetInfo.None? then
        (if targetInfo.Some? then [Event(path, CreationOp(targetInfo.value.size))] else [])
      else if targetInfo.Some? && (prev.target != target || Changed(prev.targetInfo.value, targetInfo.value)) then
        [Event(path, Write)]
      else [];
    StepResult(State(path, Some(info), target, targetInfo), removal + change, errors)
  }
}
