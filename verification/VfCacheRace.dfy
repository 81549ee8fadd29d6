/** Several loads of one virtual file and its calibration at the same time. A load looks the file up, computes
    an entry from the database outside the lock, and stores it later; calibration changes the database rows
    and then empties the cache (`loadVFCache`, `InvalidateVFCacheForNZBFile`). */
module VfCacheRace {
  datatype Option<+T> = None | Some(value: T)

  /** Where one load is; `version` is the version of the rows it read. */
  datatype Place = Idle | Missed | Computed(version: nat) | Done(version: nat)

  /** `rows` counts the calibrations of the file, `cached` is the version its cached entry was computed from. */
  datatype State = State(rows: nat, cached: Option<nat>, loads: seq<Place>)

  datatype Step =
    | Lookup(t: nat)      // under the lock: a hit ends the load
    | Compute(t: nat)     // read the rows and compute an entry
    | Store(t: nat)       // under the lock: remember the entry
    | Calibrate           // write new sizes
    | Invalidate          // under the lock: forget every entry

  predicate Enabled(s: State, step: Step) {
    match step
    case Lookup(t) => t < |s.loads| && s.loads[t].Idle?
    case Compute(t) => t < |s.loads| && s.loads[t].Missed?
    case Store(t) => t < |s.loads| && s.loads[t].Computed?
    case Calibrate => true
    case Invalidate => true
  }

  function Apply(s: State, step: Step): State
    requires Enabled(s, step)
  {
    match step
    case Lookup(t) => s.(loads := s.loads[t := if s.cached.Some? then Done(s.cached.value) else Missed])
    case Compute(t) => s.(loads := s.loads[t := Computed(s.rows)])
    case Store(t) => s.(cached := Some(s.loads[t].version), loads := s.loads[t := Done(s.loads[t].version)])
    case Calibrate => s.(rows := s.rows + 1)
    case Invalidate => s.(cached := None)
  }

  ghost predicate Runs(s: State, steps: seq<Step>)
    decreases |steps|, 0
  {
    steps == [] ||
    (Runs(s, steps[..|steps| - 1]) && Enabled(After(s, steps[..|steps| - 1]), steps[|steps| - 1]))
  }

  ghost function After(s: State, steps: seq<Step>): State
    requires Runs(s, steps)
    decreases |steps|, 1
  {
    if steps == [] then s else Apply(After(s, steps[..|steps| - 1]), steps[|steps| - 1])
  }

  /** The cached entry was computed from rows that have changed since. */
  predicate Stale(s: State) { s.cached.Some? && s.cached.value != s.rows }

  /** Load `t` has read rows that have changed since, and has not stored its entry yet. */
  predicate Late(s: State, t: nat) {
    t < |s.loads| && s.loads[t].Computed? && s.loads[t].version != s.rows
  }

  /** Only loads take these steps. */
  predicate LoadsOnly(steps: seq<Step>) {
    forall k | 0 <= k < |steps| :: !steps[k].Calibrate? && !steps[k].Invalidate?
  }

  predicate LastStore(steps: seq<Step>, k: nat) {
    k < |steps| && steps[k].Store? && forall j | k < j < |steps| :: !steps[j].Store?
  }

  /** A load that is late after some steps of loads was late before them; one that was late and is not any more
      has stored its entry. */
  lemma {:induction false} LateSince(s: State, steps: seq<Step>, t: nat)
    requires Runs(s, steps) && LoadsOnly(steps)
    ensures var now := After(s, steps);
      && now.rows == s.rows && |now.loads| == |s.loads|
      && (Late(now, t) ==> Late(s, t))
      && (Late(s, t) ==> Late(now, t) || Store(t) in steps)
      && (Store(t) in steps ==> t < |now.loads| && now.loads[t].Done?)
    decreases |steps|
  {
    if steps != [] {
      var n := |steps| - 1;
      assert steps == steps[..n] + [steps[n]];
      LateSince(s, steps[..n], t);
    }
  }

  /** When the last calibration of a file has emptied the cache, the loads that follow leave a stale entry in it
      if and only if the last one to store had read the old rows before the cache was emptied. */
  lemma {:induction false} StaleExactly(s: State, steps: seq<Step>)
    requires s.cached.None? && Runs(s, steps) && LoadsOnly(steps)
    ensures After(s, steps).rows == s.rows
    ensures Stale(After(s, steps)) <==> exists k: nat :: LastStore(steps, k) && Late(s, steps[k].t)
    decreases |steps|
  {
    if steps != [] {
      var n := |steps| - 1;
      var before, step := After(s, steps[..n]), steps[n];
      StaleExactly(s, steps[..n]);
      LateSince(s, steps[..n], if step.Store? then step.t else 0);
      if step.Store? {
        assert LastStore(steps, n);
        OnlyLast(steps, n);
        if Late(s, step.t) && Store(step.t) in steps[..n] {
          assert false;
        }
      } else {
        SameLast(steps);
        assert After(s, steps).cached == before.cached;
      }
    } else {
      assert !exists k: nat :: LastStore(steps, k);
    }
  }

  lemma OnlyLast(steps: seq<Step>, n: nat)
    requires LastStore(steps, n)
    ensures forall k: nat | LastStore(steps, k) :: k == n
  {
  }

  lemma SameLast(steps: seq<Step>)
    requires steps != [] && !steps[|steps| - 1].Store?
    ensures forall k: nat :: LastStore(steps, k) <==> LastStore(steps[..|steps| - 1], k)
  {
  }

  /** One load is enough: it computes, the file is calibrated and the cache emptied, and it stores the old
      entry, which every later load then gets. */
  lemma StaleExample()
    ensures var s := State(0, None, [Idle, Idle]);
      var steps := [Lookup(0), Compute(0), Calibrate, Invalidate, Store(0), Lookup(1)];
      Runs(s, steps) && Stale(After(s, steps)) && After(s, steps).loads[1] == Done(0) && After(s, steps).rows == 1
  {
    var s := State(0, None, [Idle, Idle]);
    var steps := [Lookup(0), Compute(0), Calibrate, Invalidate, Store(0), Lookup(1)];
    hide Runs, After;
    NoSteps(s);
    var a := Taken(s, [], Lookup(0));
    var b := Taken(s, a, Compute(0));
    var c := Taken(s, b, Calibrate);
    var d := Taken(s, c, Invalidate);
    var e := Taken(s, d, Store(0));
    var f := Taken(s, e, Lookup(1));
    assert f == [Lookup(0), Compute(0), Calibrate, Invalidate, Store(0), Lookup(1)];
  }

  lemma NoSteps(s: State)
    ensures Runs(s, []) && After(s, []) == s
  {
  }

  lemma Taken(s: State, steps: seq<Step>, step: Step) returns (more: seq<Step>)
    requires Runs(s, steps) && Enabled(After(s, steps), step)
    ensures more == steps + [step] && Runs(s, more) && After(s, more) == Apply(After(s, steps), step)
  {
    more := steps + [step];
    assert more[..|steps|] == steps;
  }
}
