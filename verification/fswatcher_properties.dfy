/** Properties of the file watcher's diff engine and polling cycle. */
module FsWatcherProperties {
  import opened FsWatcher
  import opened FsWatcherRegistry

  // ---------------------------------------------------------------------------
  // Operations
  // ---------------------------------------------------------------------------

  /** `Create`, `Write` and `Remove` are single bits, pairwise distinct. */
  lemma OpsAreDistinctBits()
    ensures Create != 0 && Create & (Create - 1) == 0
    ensures Write != 0 && Write & (Write - 1) == 0
    ensures Remove != 0 && Remove & (Remove - 1) == 0
    ensures Create & Write == 0 && Create & Remove == 0 && Write & Remove == 0
  {
  }

  /** `Has` of a combined operation set holds exactly when one of the parts has it. */
  lemma HasUnion(a: Op, b: Op, h: Op)
    ensures Has(a | b, h) <==> Has(a, h) || Has(b, h)
  {
    assert (a | b) & h == (a & h) | (b & h);
  }

  /** A newly appeared non-empty file is reported as `Create|Write`, which has both and not `Remove`. */
  lemma CreateWriteHasBoth()
    ensures Has(Create | Write, Create) && Has(Create | Write, Write) && !Has(Create | Write, Remove)
  {
  }

  // ---------------------------------------------------------------------------
  // One path
  // ---------------------------------------------------------------------------

  /** The diff engine keeps a stored state consistent. */
  lemma StepPreservesInvariant(prev: State, obs: Observation, ops: PathOps)
    requires StateInvariant(prev)
    ensures StateInvariant(Step(prev, obs, ops).state)
  {
  }

  /**
   Polling again with an unchanged filesystem sends no event and stores the
   same state; only an error is sent again.
   */
  lemma StepIdempotent(prev: State, obs: Observation, ops: PathOps)
    ensures var first := Step(prev, obs, ops);
            var again := Step(first.state, obs, ops);
            again.state == first.state && again.events == [] && again.errors == first.errors
  {
  }

  /** A path never seen before is never reported as removed. */
  lemma UnknownNeverRemoved(path: Path, obs: Observation, ops: PathOps)
    ensures forall i :: 0 <= i < |Step(Unknown(path), obs, ops).events| ==>
              !Has(Step(Unknown(path), obs, ops).events[i].op, Remove)
  {
  }

  /**
   Repointing a symlink from one existing target to another existing target
   is a single `Write`, not a removal followed by a creation.
   */
  lemma SymlinkRepointIsWrite(prev: State, info: FileInfo, link: Path, targetInfo: FileInfo, ops: PathOps)
    requires info.isSymlink && prev.targetInfo.Some?
    requires ResolveTarget(ops, prev.path, link) != prev.target
    ensures Step(prev, Observation(Info(info), Target(link), TargetInfo(targetInfo)), ops).events
            == [Event(prev.path, Write)]
  {
  }

  /**
   `Remove` can be sent twice without a `Create` in between: a symlink
   whose target disappears is reported removed, and when the symlink itself
   then disappears it is reported removed again.
   */
  lemma RemoveTwiceWithoutCreate(ops: PathOps)
    ensures var link := FileInfo(true, 4, ModTime(1));
            var data := FileInfo(false, 10, ModTime(1));
            var s0 := Unknown("s");
            var r1 := Step(s0, Observation(Info(link), Target("a"), TargetInfo(data)), ops);
            var r2 := Step(r1.state, Observation(Info(link), Target("a"), TargetPathError), ops);
            var r3 := Step(r2.state, Observation(NotExist, ReadlinkErr, TargetPathError), ops);
            && r1.events == [Event("s", Create | Write)]
            && r2.events == [Event("s", Remove)]
            && r3.events == [Event("s", Remove)]
  {
  }

  // ---------------------------------------------------------------------------
  // The registry
  // ---------------------------------------------------------------------------

  /** A polling cycle keeps every entry under its own path and consistent. */
  lemma TickPreservesInvariant(tracked: map<Path, State>, observe: Path -> Observation, ops: PathOps)
    requires RegistryInvariant(tracked)
    ensures RegistryInvariant(TickState(tracked, observe, ops))
  {
    var next := TickState(tracked, observe, ops);
    forall k | k in next
      ensures next[k].path == k && StateInvariant(next[k])
    {
      StepPreservesInvariant(tracked[k], observe(tracked[k].path), ops);
    }
  }

  /**
   A second cycle over an unchanged filesystem stores the same registry,
   sends no event, and sends the same errors again.
   */
  lemma {:induction false} TickIdempotent(tracked: map<Path, State>, order: seq<Path>, observe: Path -> Observation, ops: PathOps)
    requires forall i :: 0 <= i < |order| ==> order[i] in tracked
    ensures TickState(TickState(tracked, observe, ops), observe, ops) == TickState(tracked, observe, ops)
    ensures TickEvents(TickState(tracked, observe, ops), order, observe, ops) == []
    ensures TickErrors(TickState(tracked, observe, ops), order, observe, ops) == TickErrors(tracked, order, observe, ops)
  {
    var next := TickState(tracked, observe, ops);
    forall k | k in tracked
      ensures TickState(next, observe, ops)[k] == next[k]
    {
      StepIdempotent(tracked[k], observe(tracked[k].path), ops);
    }
    if |order| > 0 {
      var init := order[..|order| - 1];
      var k := order[|order| - 1];
      TickIdempotent(tracked, init, observe, ops);
      StepIdempotent(tracked[k], observe(tracked[k].path), ops);
    }
  }

  /** The registry after a run of polling cycles, one observation per cycle. */
  function Run(tracked: map<Path, State>, cycles: seq<Path -> Observation>, ops: PathOps): map<Path, State>
  {
    if |cycles| == 0 then tracked
    else Run(TickState(tracked, cycles[0], ops), cycles[1..], ops)
  }

  /**
   Over the watcher's whole life the set of tracked paths never changes and
   every entry stays under its own path and consistent.
   */
  lemma {:induction false} RunPreservesRegistry(tracked: map<Path, State>, cycles: seq<Path -> Observation>, ops: PathOps)
    requires RegistryInvariant(tracked)
    ensures Run(tracked, cycles, ops).Keys == tracked.Keys
    ensures RegistryInvariant(Run(tracked, cycles, ops))
  {
    if |cycles| > 0 {
      TickPreservesInvariant(tracked, cycles[0], ops);
      RunPreservesRegistry(TickState(tracked, cycles[0], ops), cycles[1..], ops);
    }
  }
}
