/**
 The tracked-path registry of the file watcher: construction, and one
 polling cycle that runs the diff engine on every tracked path.
 */
module FsWatcherRegistry {
  import opened FsWatcher

  /** The only construction option: override the polling interval. */
  datatype WatcherOption = WithInterval(interval: Duration)

  /** The watcher's data: the tracked registry and the polling interval. */
  datatype Watcher = Watcher(tracked: map<Path, State>, interval: Duration)

  /** Every entry is stored under its own path. */
  predicate KeysMatchPaths(tracked: map<Path, State>)
  {
    forall k :: k in tracked ==> tracked[k].path == k
  }

  /** Every entry is stored under its own path and is consistent. */
  predicate RegistryInvariant(tracked: map<Path, State>)
  {
    forall k :: k in tracked ==> tracked[k].path == k && StateInvariant(tracked[k])
  }

  /**
   Builds the watcher: the options are applied in order over the default
   interval (`testing` stands for `testing.Testing()`), and every path, once
   however often it is listed, starts unknown. Construction never fails.
   */
  method New(paths: seq<Path>, options: seq<WatcherOption>, testing: bool) returns (w: Watcher)
    ensures w.tracked.Keys == set p | p in paths
    ensures forall k :: k in w.tracked ==> w.tracked[k] == Unknown(k)
    ensures RegistryInvariant(w.tracked)
    ensures |options| == 0 ==> w.interval == if testing then TestInterval else DefaultInterval
    ensures |options| > 0 ==> w.interval == options[|options| - 1].interval
  {
    var interval := if testing then TestInterval else DefaultInterval;
    var i := 0;
    while i < |options|
      invariant 0 <= i <= |options|
      invariant i == 0 ==> interval == if testing then TestInterval else DefaultInterval
      invariant i > 0 ==> interval == options[i - 1].interval
    {
      interval := options[i].interval;
      i := i + 1;
    }
    var tracked: map<Path, State> := map[];
    var j := 0;
    while j < |paths|
      invariant 0 <= j <= |paths|
      invariant tracked.Keys == set p | p in paths[..j]
      invariant forall k :: k in tracked ==> tracked[k] == Unknown(k)
    {
      assert paths[..j + 1] == paths[..j] + [paths[j]];
      tracked := tracked[paths[j] := Unknown(paths[j])];
      j := j + 1;
    }
    assert paths[..|paths|] == paths;
    w := Watcher(tracked, interval);
  }

  // ---------------------------------------------------------------------------
  // Reference definitions of one polling cycle
  // ---------------------------------------------------------------------------

  /**
   The registry after a cycle: every entry is replaced by the state its own
   `Step` computes, independently of the others. `observe` gives what the
   filesystem reports for a path during the cycle.
   */
  function TickState(tracked: map<Path, State>, observe: Path -> Observation, ops: PathOps): (next: map<Path, State>)
    ensures next.Keys == tracked.Keys
    ensures forall k :: k in next ==> next[k].path == tracked[k].path
  {
    map k | k in tracked :: Step(tracked[k], observe(tracked[k].path), ops).state
  }

  /** The events sent when the entries are visited in the order `keys`. */
  function TickEvents(tracked: map<Path, State>, keys: seq<Path>, observe: Path -> Observation, ops: PathOps): seq<Event>
    requires forall i :: 0 <= i < |keys| ==> keys[i] in tracked
  {
    if |keys| == 0 then []
    else
      var prev := tracked[keys[|keys| - 1]];
      TickEvents(tracked, keys[..|keys| - 1], observe, ops) + Step(prev, observe(prev.path), ops).events
  }

  /** The errors sent when the entries are visited in the order `keys`. */
  function TickErrors(tracked: map<Path, State>, keys: seq<Path>, observe: Path -> Observation, ops: PathOps): seq<Error>
    requires forall i :: 0 <= i < |keys| ==> keys[i] in tracked
  {
    if |keys| == 0 then []
    else
      var prev := tracked[keys[|keys| - 1]];
      TickErrors(tracked, keys[..|keys| - 1], observe, ops) + Step(prev, observe(prev.path), ops).errors
  }

  /** The registry after visiting the entries in the order `keys`, each result stored under the entry's own path. */
  function ApplySteps(tracked: map<Path, State>, keys: seq<Path>, observe: Path -> Observation, ops: PathOps): map<Path, State>
    requires forall i :: 0 <= i < |keys| ==> keys[i] in tracked
  {
    if |keys| == 0 then tracked
    else
      var prev := tracked[keys[|keys| - 1]];
      ApplySteps(tracked, keys[..|keys| - 1], observe, ops)[prev.path := Step(prev, observe(prev.path), ops).state]
  }

  /**
   `order` lists every key of the registry exactly once (Go's map iteration
   order is arbitrary): its entries are distinct keys, as many as there are keys.
   */
  predicate Enumerates(order: seq<Path>, keys: set<Path>)
  {
    && (forall i :: 0 <= i < |order| ==> order[i] in keys)
    && (forall i, j :: 0 <= i < j < |order| ==> order[i] != order[j])
    && |order| == |keys|
  }

  // ---------------------------------------------------------------------------
  // Helper lemmas for the cycle
  // ---------------------------------------------------------------------------

  lemma SubsetOfSameSize<T>(a: set<T>, b: set<T>)
    requires a <= b && |a| == |b|
    ensures a == b
  {
    assert b == a + (b - a);
    assert |b - a| == 0;
  }

  /** A sequence of distinct entries has as many distinct elements as entries. */
  lemma {:induction false} DistinctElements(order: seq<Path>)
    requires forall i, j :: 0 <= i < j < |order| ==> order[i] != order[j]
    ensures |set i | 0 <= i < |order| :: order[i]| == |order|
  {
    if |order| > 0 {
      var init := order[..|order| - 1];
      var last := order[|order| - 1];
      DistinctElements(init);
      var s := set i | 0 <= i < |order| :: order[i];
      var s' := set i | 0 <= i < |init| :: init[i];
      assert s == s' + {last};
      assert last !in s';
    }
  }

  /** An enumeration visits every key. */
  lemma EnumerationCovers(order: seq<Path>, keys: set<Path>)
    requires Enumerates(order, keys)
    ensures forall k :: k in keys ==> k in order
  {
    var s := set i | 0 <= i < |order| :: order[i];
    DistinctElements(order);
    SubsetOfSameSize(s, keys);
    forall k | k in keys ensures k in order {
      assert k in s;
    }
  }

  lemma TickSnoc(tracked: map<Path, State>, keys: seq<Path>, k: Path, observe: Path -> Observation, ops: PathOps)
    requires forall i :: 0 <= i < |keys| ==> keys[i] in tracked
    requires k in tracked
    ensures ApplySteps(tracked, keys + [k], observe, ops)
         == ApplySteps(tracked, keys, observe, ops)[tracked[k].path := Step(tracked[k], observe(tracked[k].path), ops).state]
    ensures TickEvents(tracked, keys + [k], observe, ops)
         == TickEvents(tracked, keys, observe, ops) + Step(tracked[k], observe(tracked[k].path), ops).events
    ensures TickErrors(tracked, keys + [k], observe, ops)
         == TickErrors(tracked, keys, observe, ops) + Step(tracked[k], observe(tracked[k].path), ops).errors
  {
    assert (keys + [k])[..|keys|] == keys;
  }

  /** Visiting distinct keys of a registry whose keys match their paths updates exactly those keys. */
  lemma {:induction false} ApplyStepsUpdatesVisited(tracked: map<Path, State>, keys: seq<Path>, observe: Path -> Observation, ops: PathOps)
    requires KeysMatchPaths(tracked)
    requires forall i :: 0 <= i < |keys| ==> keys[i] in tracked
    requires forall i, j :: 0 <= i < j < |keys| ==> keys[i] != keys[j]
    ensures ApplySteps(tracked, keys, observe, ops).Keys == tracked.Keys
    ensures forall k :: k in tracked ==>
              ApplySteps(tracked, keys, observe, ops)[k]
              == if k in keys then Step(tracked[k], observe(tracked[k].path), ops).state else tracked[k]
  {
    if |keys| > 0 {
      var init := keys[..|keys| - 1];
      ApplyStepsUpdatesVisited(tracked, init, observe, ops);
      assert keys == init + [keys[|keys| - 1]];
    }
  }

  /**
   Visiting distinct keys sends at most one event and one error per key, every
   event names a visited key, and no key is named by two events.
   */
  lemma {:induction false} TickEventsNameDistinctKeys(tracked: map<Path, State>, keys: seq<Path>, observe: Path -> Observation, ops: PathOps)
    requires KeysMatchPaths(tracked)
    requires forall i :: 0 <= i < |keys| ==> keys[i] in tracked
    requires forall i, j :: 0 <= i < j < |keys| ==> keys[i] != keys[j]
    ensures |TickEvents(tracked, keys, observe, ops)| <= |keys|
    ensures |TickErrors(tracked, keys, observe, ops)| <= |keys|
    ensures forall i :: 0 <= i < |TickEvents(tracked, keys, observe, ops)| ==>
              TickEvents(tracked, keys, observe, ops)[i].name in keys
    ensures forall i, j :: 0 <= i < j < |TickEvents(tracked, keys, observe, ops)| ==>
              TickEvents(tracked, keys, observe, ops)[i].name != TickEvents(tracked, keys, observe, ops)[j].name
  {
    if |keys| > 0 {
      var init := keys[..|keys| - 1];
      var last := keys[|keys| - 1];
      TickEventsNameDistinctKeys(tracked, init, observe, ops);
      var before := TickEvents(tracked, init, observe, ops);
      var now := Step(tracked[last], observe(tracked[last].path), ops).events;
      assert TickEvents(tracked, keys, observe, ops) == before + now;
      assert last !in init by {
        forall j | 0 <= j < |init| ensures init[j] != last {
          assert init[j] == keys[j];
        }
      }
      assert forall i :: 0 <= i < |now| ==> now[i].name == last;
      forall i | 0 <= i < |before| ensures before[i].name in keys {
        var j :| 0 <= j < |init| && init[j] == before[i].name;
        assert keys[j] == init[j];
      }
    }
  }

  /** Visiting every key once gives the reference registry. */
  lemma EnumerationGivesTickState(tracked: map<Path, State>, order: seq<Path>, observe: Path -> Observation, ops: PathOps)
    requires KeysMatchPaths(tracked)
    requires Enumerates(order, tracked.Keys)
    ensures ApplySteps(tracked, order, observe, ops) == TickState(tracked, observe, ops)
  {
    ApplyStepsUpdatesVisited(tracked, order, observe, ops);
    EnumerationCovers(order, tracked.Keys);
  }

  // ---------------------------------------------------------------------------
  // One polling cycle
  // ---------------------------------------------------------------------------

  /**
   One polling cycle: visits every tracked path once, in the order `order`,
   sending the events and errors of its `Step` and storing its new state.
   The result agrees with the reference definitions; no key is added or
   removed, every event names a tracked path, and no path is named by two
   events of the same cycle.
   */
  method Tick(tracked: map<Path, State>, order: seq<Path>, observe: Path -> Observation, ops: PathOps)
    returns (next: map<Path, State>, events: seq<Event>, errors: seq<Error>)
    requires KeysMatchPaths(tracked)
    requires Enumerates(order, tracked.Keys)
    ensures next == TickState(tracked, observe, ops)
    ensures events == TickEvents(tracked, order, observe, ops)
    ensures errors == TickErrors(tracked, order, observe, ops)
    ensures next.Keys == tracked.Keys && KeysMatchPaths(next)
    ensures forall i :: 0 <= i < |events| ==> events[i].name in tracked
    ensures forall i, j :: 0 <= i < j < |events| ==> events[i].name != events[j].name
    ensures |events| <= |tracked| && |errors| <= |tracked|
  {
    next, events, errors := tracked, [], [];
    var i := 0;
    while i < |order|
      invariant 0 <= i <= |order|
      invariant next == ApplySteps(tracked, order[..i], observe, ops)
      invariant events == TickEvents(tracked, order[..i], observe, ops)
      invariant errors == TickErrors(tracked, order[..i], observe, ops)
    {
      var prev := tracked[order[i]];
      var r := Step(prev, observe(prev.path), ops);
      assert order[..i + 1] == order[..i] + [order[i]];
      TickSnoc(tracked, order[..i], order[i], observe, ops);
      next := next[prev.path := r.state];
      events := events + r.events;
      errors := errors + r.errors;
      i := i + 1;
    }
    assert order[..|order|] == order;
    EnumerationGivesTickState(tracked, order, observe, ops);
    TickEventsNameDistinctKeys(tracked, order, observe, ops);
  }
}
