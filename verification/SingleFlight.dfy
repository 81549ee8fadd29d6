/** `SingleFlight.Do` as a protocol of concurrent callers. Each step is what one caller does without
    giving up the lock, or one access to a flight record outside it; a run interleaves the steps of all
    callers in any order. Fetches may return anything, but they do return. */
module SingleFlight {
  datatype Option<+T> = None | Some(value: T)

  /** What a fetch returned: data or an error. */
  datatype Outcome = Fetched(data: string) | Failed(error: string)

  /** The record shared by the owner and its waiters. `owner` is not stored by the program. */
  datatype Flight = Flight(key: string, owner: nat, result: Option<Outcome>, closed: bool)

  /** Where one caller is. Everything after the lookup names the flight the lookup found or made. */
  datatype Place =
    | Entering
    | Fetching(flight: nat)
    | Publishing(flight: nat)
    | Deleting(flight: nat)
    | Returning(flight: nat)
    | Waiting(flight: nat)
    | Returned(flight: nat, outcome: Option<Outcome>)   // what the record held, if anything
    | Cancelled(flight: nat)

  datatype Caller = Caller(key: string, place: Place)

  datatype State = State(callers: seq<Caller>, flights: map<string, nat>, records: seq<Flight>)

  datatype Step =
    | Lookup(t: nat)                       // under the lock: join the active flight or register one
    | FetchReturns(t: nat, outcome: Outcome)  // the owner writes the result
    | Close(t: nat)                        // the owner closes the channel
    | Delete(t: nat)                       // under the lock: the owner removes the key
    | Return(t: nat)                       // the owner returns its flight's result
    | Receive(t: nat)                      // a waiter sees the channel closed and returns the result
    | Cancel(t: nat)                       // a waiter's own context ends

  /** Callers of the given keys, none of which has looked anything up. */
  function Init(keys: seq<string>): State {
    State(seq(|keys|, i requires 0 <= i < |keys| => Caller(keys[i], Entering)), map[], [])
  }

  function PlaceOf(s: State, t: nat): Place
    requires t < |s.callers|
  {
    s.callers[t].place
  }

  predicate Enabled(s: State, step: Step) {
    && step.t < |s.callers|
    && var p := PlaceOf(s, step.t);
       match step
       case Lookup(_) => p.Entering?
       case FetchReturns(_, _) => p.Fetching? && p.flight < |s.records|
       case Close(_) => p.Publishing? && p.flight < |s.records|
       case Delete(_) => p.Deleting?
       case Return(_) => p.Returning? && p.flight < |s.records|
       case Receive(_) => p.Waiting? && p.flight < |s.records| && s.records[p.flight].closed
       case Cancel(_) => p.Waiting?
  }

  function Move(s: State, t: nat, place: Place): State
    requires t < |s.callers|
  {
    s.(callers := s.callers[t := s.callers[t].(place := place)])
  }

  function Apply(s: State, step: Step): State
    requires Enabled(s, step)
  {
    var t := step.t;
    var key, p := s.callers[t].key, PlaceOf(s, t);
    match step
    case Lookup(_) =>
      if key in s.flights then Move(s, t, Waiting(s.flights[key]))
      else
        var f := |s.records|;
        Move(s, t, Fetching(f)).(flights := s.flights[key := f], records := s.records + [Flight(key, t, None, false)])
    case FetchReturns(_, outcome) =>
      Move(s, t, Publishing(p.flight)).(records := s.records[p.flight := s.records[p.flight].(result := Some(outcome))])
    case Close(_) =>
      Move(s, t, Deleting(p.flight)).(records := s.records[p.flight := s.records[p.flight].(closed := true)])
    case Delete(_) => Move(s, t, Returning(p.flight)).(flights := s.flights - {key})
    case Return(_) => Move(s, t, Returned(p.flight, s.records[p.flight].result))
    case Receive(_) => Move(s, t, Returned(p.flight, s.records[p.flight].result))
    case Cancel(_) => Move(s, t, Cancelled(p.flight))
  }

  // ----- The invariant -------------------------------------------------------------------------------

  /** The caller owns flight `f` and has not removed its key yet. */
  predicate Owns(p: Place, f: nat) { p == Fetching(f) || p == Publishing(f) || p == Deleting(f) }

  predicate KeyGood(s: State, key: string)
    requires key in s.flights
  {
    var f := s.flights[key];
    && f < |s.records| && s.records[f].key == key
    && s.records[f].owner < |s.callers| && Owns(PlaceOf(s, s.records[f].owner), f)
  }

  predicate RecordGood(s: State, f: nat)
    requires f < |s.records|
  {
    var r := s.records[f];
    && r.owner < |s.callers|
    && (r.closed ==> r.result.Some?)
    && (!r.closed ==> PlaceOf(s, r.owner) == if r.result.None? then Fetching(f) else Publishing(f))
  }

  predicate CallerGood(s: State, t: nat)
    requires t < |s.callers|
  {
    var c := s.callers[t];
    c.place.Entering? ||
    (&& c.place.flight < |s.records|
     && var r := s.records[c.place.flight];
        && r.key == c.key
        && (c.place.Fetching? || c.place.Publishing? || c.place.Deleting? ==>
              r.owner == t && c.key in s.flights && s.flights[c.key] == c.place.flight)
        && (c.place.Fetching? ==> r.result.None? && !r.closed)
        && (c.place.Publishing? ==> r.result.Some? && !r.closed)
        && (c.place.Deleting? || c.place.Returning? ==> r.closed)
        && (c.place.Returned? ==> r.closed && r.result == c.place.outcome))
  }

  ghost predicate Inv(s: State) {
    && (forall key | key in s.flights :: KeyGood(s, key))
    && (forall f: nat | f < |s.records| :: RecordGood(s, f))
    && (forall t: nat | t < |s.callers| :: CallerGood(s, t))
  }

  lemma InitInv(keys: seq<string>)
    ensures Inv(Init(keys))
  {
  }

  lemma KeyStays(s: State, step: Step, key: string)
    requires Inv(s) && Enabled(s, step) && key in Apply(s, step).flights
    ensures KeyGood(Apply(s, step), key)
  {
    assert CallerGood(s, step.t);
    if key in s.flights {
      assert KeyGood(s, key);
    }
  }

  lemma RecordStays(s: State, step: Step, f: nat)
    requires Inv(s) && Enabled(s, step) && f < |Apply(s, step).records|
    ensures RecordGood(Apply(s, step), f)
  {
    assert CallerGood(s, step.t);
    if f < |s.records| {
      assert RecordGood(s, f);
    }
  }

  lemma CallerStays(s: State, step: Step, t: nat)
    requires Inv(s) && Enabled(s, step) && t < |s.callers|
    ensures CallerGood(Apply(s, step), t)
  {
    assert CallerGood(s, step.t) && CallerGood(s, t);
    if s.callers[step.t].key in s.flights {
      assert KeyGood(s, s.callers[step.t].key);
    }
    if !PlaceOf(s, t).Entering? {
      assert RecordGood(s, PlaceOf(s, t).flight);
    }
  }

  /** Every step keeps the invariant. */
  lemma StepKeepsInv(s: State, step: Step)
    requires Inv(s) && Enabled(s, step)
    ensures Inv(Apply(s, step)) && |Apply(s, step).callers| == |s.callers|
  {
    var after := Apply(s, step);
    forall key | key in after.flights ensures KeyGood(after, key) {
      KeyStays(s, step, key);
    }
    forall f: nat | f < |after.records| ensures RecordGood(after, f) {
      RecordStays(s, step, f);
    }
    forall t: nat | t < |after.callers| ensures CallerGood(after, t) {
      CallerStays(s, step, t);
    }
  }

  // ----- Runs ------------------------------------------------------------------------------------------

  /** The steps can be taken one after another from `s`. */
  ghost predicate Runs(s: State, steps: seq<Step>)
    decreases |steps|, 0
  {
    steps == [] ||
    (Runs(s, steps[..|steps| - 1]) && Enabled(After(s, steps[..|steps| - 1]), steps[|steps| - 1]))
  }

  /** Where the steps lead. */
  ghost function After(s: State, steps: seq<Step>): State
    requires Runs(s, steps)
    decreases |steps|, 1
  {
    if steps == [] then s else Apply(After(s, steps[..|steps| - 1]), steps[|steps| - 1])
  }

  lemma {:induction false} RunKeepsInv(s: State, steps: seq<Step>)
    requires Inv(s) && Runs(s, steps)
    ensures Inv(After(s, steps)) && |After(s, steps).callers| == |s.callers|
    decreases |steps|
  {
    hide Inv, Apply, Enabled;
    if steps != [] {
      RunKeepsInv(s, steps[..|steps| - 1]);
      StepKeepsInv(After(s, steps[..|steps| - 1]), steps[|steps| - 1]);
    }
  }

  /** The fetch of a caller is running. */
  predicate FetchRuns(s: State, t: nat, key: string) {
    t < |s.callers| && s.callers[t].key == key && PlaceOf(s, t).Fetching?
  }

  /** In every interleaving at most one fetch per key runs at a time. */
  lemma OneFetchPerKey(keys: seq<string>, steps: seq<Step>, t: nat, u: nat, key: string)
    requires Runs(Init(keys), steps)
    requires FetchRuns(After(Init(keys), steps), t, key) && FetchRuns(After(Init(keys), steps), u, key)
    ensures t == u
  {
    InitInv(keys);
    RunKeepsInv(Init(keys), steps);
    var s := After(Init(keys), steps);
    assert CallerGood(s, t) && CallerGood(s, u);
  }

  /** When an owner deletes its key, the entry it removes is its own flight. */
  lemma DeleteRemovesOwnFlight(keys: seq<string>, steps: seq<Step>, t: nat)
    requires Runs(Init(keys), steps) && Enabled(After(Init(keys), steps), Delete(t))
    ensures var s := After(Init(keys), steps); var key := s.callers[t].key;
      key in s.flights && s.flights[key] == PlaceOf(s, t).flight
      && s.flights[key] < |s.records| && s.records[s.flights[key]].owner == t
  {
    InitInv(keys);
    RunKeepsInv(Init(keys), steps);
    assert CallerGood(After(Init(keys), steps), t);
  }

  /** A step binds a caller to a flight only by that caller's own lookup, and never rebinds it. */
  lemma StepBinds(s: State, step: Step, t: nat)
    requires Inv(s) && Enabled(s, step) && t < |s.callers|
    requires t < |Apply(s, step).callers|
    requires !PlaceOf(Apply(s, step), t).Entering?
    ensures if step == Lookup(t) then
              var found := Apply(s, step);
              found.callers[t].key in found.flights && found.flights[found.callers[t].key] == PlaceOf(found, t).flight
            else !PlaceOf(s, t).Entering? && PlaceOf(Apply(s, step), t).flight == PlaceOf(s, t).flight
  {
    assert CallerGood(s, t);
  }

  /** The caller returned `outcome` of flight `f` of its key. */
  predicate ReturnedWith(s: State, t: nat, f: nat, outcome: Option<Outcome>) {
    t < |s.callers| && PlaceOf(s, t) == Returned(f, outcome)
  }

  /** The steps up to and including a caller's lookup. */
  ghost predicate LooksUpAt(s: State, steps: seq<Step>, i: nat, t: nat, f: nat)
    requires Runs(s, steps)
  {
    && i < |steps| && steps[i] == Lookup(t)
    && Runs(s, steps[..i + 1])
    && var found := After(s, steps[..i + 1]);
       t < |found.callers| && found.callers[t].key in found.flights && found.flights[found.callers[t].key] == f
  }

  lemma {:induction false} LookupFinds(s: State, steps: seq<Step>, t: nat)
    requires Inv(s) && Runs(s, steps) && t < |s.callers| && PlaceOf(s, t).Entering?
    requires t < |After(s, steps).callers| && !PlaceOf(After(s, steps), t).Entering?
    ensures exists i: nat :: LooksUpAt(s, steps, i, t, PlaceOf(After(s, steps), t).flight)
    decreases |steps|
  {
    hide Inv, Apply, Enabled;
    var n := |steps| - 1;
    RunKeepsInv(s, steps[..n]);
    StepBinds(After(s, steps[..n]), steps[n], t);
    if steps[n] == Lookup(t) {
      assert steps[..n + 1] == steps;
      assert LooksUpAt(s, steps, n, t, PlaceOf(After(s, steps), t).flight);
    } else {
      LookupFinds(s, steps[..n], t);
      var i: nat :| LooksUpAt(s, steps[..n], i, t, PlaceOf(After(s, steps), t).flight);
      assert steps[..n][..i + 1] == steps[..i + 1];
      assert LooksUpAt(s, steps, i, t, PlaceOf(After(s, steps), t).flight);
    }
  }

  /** Every caller that is not cancelled returns the published outcome of a fetch for its own key that was
      registered when the caller looked the key up: none reads a record that holds nothing yet. */
  lemma ReturnsRegisteredFetch(keys: seq<string>, steps: seq<Step>, t: nat, f: nat, outcome: Option<Outcome>)
    requires Runs(Init(keys), steps) && ReturnedWith(After(Init(keys), steps), t, f, outcome)
    ensures var s := After(Init(keys), steps);
      && f < |s.records| && s.records[f].key == s.callers[t].key
      && s.records[f].closed && s.records[f].result == outcome && outcome.Some?
    ensures exists i: nat :: LooksUpAt(Init(keys), steps, i, t, f)
  {
    InitInv(keys);
    RunKeepsInv(Init(keys), steps);
    assert CallerGood(After(Init(keys), steps), t) && RecordGood(After(Init(keys), steps), f);
    LookupFinds(Init(keys), steps, t);
  }

  /** Cancelling one waiter disables no other caller's step and leads to the same state in either order. */
  lemma CancelIsInvisible(s: State, t: nat, other: Step)
    requires Enabled(s, Cancel(t)) && Enabled(s, other) && other.t != t
    ensures Enabled(Apply(s, Cancel(t)), other) && Enabled(Apply(s, other), Cancel(t))
    ensures Apply(Apply(s, Cancel(t)), other) == Apply(Apply(s, other), Cancel(t))
  {
    var a, b := Apply(Apply(s, Cancel(t)), other), Apply(Apply(s, other), Cancel(t));
    assert a.callers == b.callers;
  }

  // ----- Progress ---------------------------------------------------------------------------------------

  predicate Finished(p: Place) { p.Returned? || p.Cancelled? }

  function StepsLeft(p: Place): nat {
    match p
    case Entering => 5
    case Fetching(_) => 4
    case Publishing(_) => 3
    case Deleting(_) => 2
    case Returning(_) => 1
    case Waiting(_) => 1
    case Returned(_, _) => 0
    case Cancelled(_) => 0
  }

  function TotalLeft(callers: seq<Caller>): nat {
    if callers == [] then 0 else StepsLeft(callers[0].place) + TotalLeft(callers[1..])
  }

  lemma {:induction false} TotalDrops(callers: seq<Caller>, t: nat, c: Caller)
    requires t < |callers| && StepsLeft(c.place) < StepsLeft(callers[t].place)
    ensures TotalLeft(callers[t := c]) < TotalLeft(callers)
  {
    if t > 0 {
      assert callers[t := c][1..] == callers[1..][t - 1 := c];
      TotalDrops(callers[1..], t - 1, c);
    } else {
      assert callers[t := c][1..] == callers[1..];
    }
  }

  lemma {:induction false} TotalBound(callers: seq<Caller>)
    ensures TotalLeft(callers) <= 5 * |callers|
  {
    if callers != [] {
      TotalBound(callers[1..]);
    }
  }

  lemma StepSpends(s: State, step: Step)
    requires Enabled(s, step)
    ensures TotalLeft(Apply(s, step).callers) < TotalLeft(s.callers)
  {
    var c := Apply(s, step).callers[step.t];
    assert Apply(s, step).callers == s.callers[step.t := c];
    TotalDrops(s.callers, step.t, c);
  }

  lemma {:induction false} RunLength(s: State, steps: seq<Step>)
    requires Runs(s, steps)
    ensures |steps| + TotalLeft(After(s, steps).callers) <= TotalLeft(s.callers)
    decreases |steps|
  {
    hide TotalLeft, Enabled, Apply;
    if steps != [] {
      RunLength(s, steps[..|steps| - 1]);
      StepSpends(After(s, steps[..|steps| - 1]), steps[|steps| - 1]);
    }
  }

  /** While a caller is unfinished, some step other than a cancellation is possible: its own, or one of the
      owner of the flight it waits for. */
  lemma SomeStepEnabled(s: State, t: nat)
    requires Inv(s) && t < |s.callers| && !Finished(PlaceOf(s, t))
    ensures exists step: Step :: !step.Cancel? && Enabled(s, step)
  {
    assert CallerGood(s, t);
    var p := PlaceOf(s, t);
    match p
    case Entering => assert Enabled(s, Lookup(t));
    case Fetching(_) => assert Enabled(s, FetchReturns(t, Fetched("")));
    case Publishing(_) => assert Enabled(s, Close(t));
    case Deleting(_) => assert Enabled(s, Delete(t));
    case Returning(_) => assert Enabled(s, Return(t));
    case Waiting(f) =>
      assert RecordGood(s, f);
      var r := s.records[f];
      if r.closed {
        assert Enabled(s, Receive(t));
      } else if r.result.Some? {
        assert CallerGood(s, r.owner) && Enabled(s, Close(r.owner));
      } else {
        assert CallerGood(s, r.owner) && Enabled(s, FetchReturns(r.owner, Fetched("")));
      }
    case _ =>
  }

  /** No run is longer than five steps per caller, and a run that can only go on by cancelling waiters, or
      not at all, has finished every caller: no interleaving leaves a waiter stuck or goes on for ever. */
  lemma RunsEnd(keys: seq<string>, steps: seq<Step>)
    requires Runs(Init(keys), steps)
    ensures |steps| <= 5 * |keys|
    ensures |After(Init(keys), steps).callers| == |keys|
    ensures (forall step: Step | !step.Cancel? :: !Enabled(After(Init(keys), steps), step)) ==>
              forall t: nat | t < |keys| :: Finished(PlaceOf(After(Init(keys), steps), t))
  {
    InitInv(keys);
    RunKeepsInv(Init(keys), steps);
    RunLength(Init(keys), steps);
    TotalBound(Init(keys).callers);
    var s := After(Init(keys), steps);
    if t: nat :| t < |keys| && !Finished(PlaceOf(s, t)) {
      SomeStepEnabled(s, t);
    }
  }
}
