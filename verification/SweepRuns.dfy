/** What holds of every run of the resumable sweep. */
module SweepRuns {
  import opened Sweep
  import opened FiniteSets

  /** The steps can be taken one after another from `s`. */
  ghost predicate Runs(s: State, steps: seq<Step>)
    decreases |steps|, 0
  {
    steps == [] ||
    (Runs(s, steps[..|steps| - 1]) && Enabled(After(s, steps[..|steps| - 1]), steps[|steps| - 1]))
  }

  ghost function After(s: State, steps: seq<Step>): State
    requires Runs(s, steps)
    decreases |steps|, 1
  {
    if steps == [] then s else Apply(After(s, steps[..|steps| - 1]), steps[|steps| - 1])
  }

  lemma {:induction false} RunKeepsInv(s: State, steps: seq<Step>)
    requires Inv(s) && Runs(s, steps)
    ensures Inv(After(s, steps)) && |After(s, steps).callers| == |s.callers|
    decreases |steps|
  {
    hide Inv, Apply, Enabled;
    if steps != [] {
      RunKeepsInv(s, steps[..|steps| - 1]);
      StepKeepsInv(After(s, steps[..|steps| - 1]), steps[|steps| - 1]);
    }
  }

  lemma {:induction false} PrefixRuns(s: State, steps: seq<Step>, k: nat)
    requires Runs(s, steps) && k <= |steps|
    ensures Runs(s, steps[..k])
    decreases |steps|
  {
    hide Enabled, Apply;
    if k < |steps| {
      PrefixRuns(s, steps[..|steps| - 1], k);
      assert steps[..|steps| - 1][..k] == steps[..k];
    } else {
      assert steps[..k] == steps;
    }
  }

  /** A sweep service that has just come up, with no checkpoint or an undecodable one. */
  ghost predicate Fresh(s: State) {
    exists limit, callers, rows, eligible, damaged ::
      0 < limit && RowsGood(rows, eligible) && s == Init(limit, callers, rows, eligible, damaged)
  }

  lemma FreshInv(s: State)
    requires Fresh(s)
    ensures Inv(s)
  {
  }

  // ----- The gate ------------------------------------------------------------------------------------------

  /** At most one caller at a time is past the gate, and a start is refused exactly while another is. */
  lemma OneOwner(s: State, steps: seq<Step>, t: nat, u: nat)
    requires Fresh(s) && Runs(s, steps) && t < |s.callers| && u < |s.callers|
    ensures var now := After(s, steps);
      && |now.callers| == |s.callers|
      && (Active(now.callers[t]) && Active(now.callers[u]) ==> t == u)
      && (now.callers[t].Idle? ==>
            (Apply(now, TryStart(t)).callers[t].Reserved? <==>
               forall v: nat | v < |now.callers| :: !Active(now.callers[v])))
  {
    FreshInv(s);
    RunKeepsInv(s, steps);
  }

  // ----- The checkpoint -------------------------------------------------------------------------------------

  predicate Saves(step: Step) {
    (step.SaveStart? || step.Checkpoint?) && step.stored
  }

  ghost function Saved(s: State, step: Step): Progress
    requires Enabled(s, step) && Saves(step)
  {
    var c := s.callers[step.t];
    if step.SaveStart? then c.p else Advanced(c.p, c.page, c.done)
  }

  /** Every checkpoint that reaches the database is accepted by the decoder as it was saved. */
  lemma SavedDecodes(s: State, steps: seq<Step>, step: Step)
    requires Fresh(s) && Runs(s, steps) && Enabled(After(s, steps), step) && Saves(step)
    ensures Decode(Apply(After(s, steps), step).cursor) == Some(Saved(After(s, steps), step))
  {
    hide Apply;
    FreshInv(s);
    RunKeepsInv(s, steps);
    var now := After(s, steps);
    SaveGood(now, step);
  }

  lemma SaveGood(s: State, step: Step)
    requires Inv(s) && Enabled(s, step) && Saves(step)
    ensures Decode(Apply(s, step).cursor) == Some(Saved(s, step))
  {
    var c := s.callers[step.t];
    assert CallerGood(s, c);
    if step.Checkpoint? {
      AdvancedAccounts(s.history, s.limit, c.p, c.page, c.done);
    }
  }

  /** The two checkpoints belong to one sweep and the second is no earlier, by at most one page. */
  predicate Continues(limit: nat, p: Progress, q: Progress) {
    && q.startedAt == p.startedAt && q.through == p.through
    && p.lastId <= q.lastId <= q.through && p.scanned <= q.scanned <= p.scanned + limit
    && (q.lastId == p.lastId <==> q.scanned == p.scanned)
  }

  /** As long as the stored checkpoint stays readable, no step takes the sweep back. */
  lemma CheckpointAdvances(s: State, steps: seq<Step>, step: Step)
    requires Fresh(s) && Runs(s, steps) && Enabled(After(s, steps), step)
    requires Decode(After(s, steps).cursor).Some? && Decode(Apply(After(s, steps), step).cursor).Some?
    ensures var now := After(s, steps);
      Continues(s.limit, Decode(now.cursor).value, Decode(Apply(now, step).cursor).value)
  {
    hide Apply;
    FreshInv(s);
    RunKeepsInv(s, steps);
    LimitStays(s, steps);
    StepContinues(After(s, steps), step);
  }

  lemma StepContinues(s: State, step: Step)
    requires Inv(s) && Enabled(s, step)
    requires Decode(s.cursor).Some? && Decode(Apply(s, step).cursor).Some?
    ensures Continues(s.limit, Decode(s.cursor).value, Decode(Apply(s, step).cursor).value)
  {
    if Acts(step) {
      var c := s.callers[step.t];
      assert CallerGood(s, c);
      if step.Checkpoint? && step.stored {
        AdvancedAccounts(s.history, s.limit, c.p, c.page, c.done);
        assert c.page[c.done - 1] in c.page;
      }
    }
  }

  lemma {:induction false} LimitStays(s: State, steps: seq<Step>)
    requires Runs(s, steps)
    ensures After(s, steps).limit == s.limit
    decreases |steps|
  {
    if steps != [] {
      LimitStays(s, steps[..|steps| - 1]);
    }
  }

  // ----- Completion -----------------------------------------------------------------------------------------

  /** Step `b` read the bound of the sweep that is still in progress after all the steps. */
  predicate LastBound(steps: seq<Step>, b: nat) {
    b < |steps| && steps[b].Bound? && forall k | b < k < |steps| :: !steps[k].Bound?
  }

  /** The id was eligible in every state since step `b`. */
  ghost predicate EligibleSince(s: State, steps: seq<Step>, b: nat, x: int) {
    forall k: nat | b < k <= |steps| :: Runs(s, steps[..k]) && x in After(s, steps[..k]).eligible
  }

  /** Step `i` attempts id `x`. */
  ghost predicate AttemptsAt(s: State, steps: seq<Step>, i: nat, x: int) {
    && i < |steps| && steps[i].Attempt?
    && Runs(s, steps[..i]) && Enabled(After(s, steps[..i]), steps[i])
    && var c := After(s, steps[..i]).callers[steps[i].t];
       c.page[c.done] == x
  }

  lemma StepSteady(s: State, step: Step, x: int)
    requires Enabled(s, step) && x in Apply(s, step).eligible
    requires step.Bound? || x in s.history.steady
    ensures x in Apply(s, step).history.steady
  {
  }

  lemma {:induction false} SteadySince(s: State, steps: seq<Step>, b: nat, x: int)
    requires Runs(s, steps) && LastBound(steps, b) && EligibleSince(s, steps, b, x)
    ensures x in After(s, steps).history.steady
    decreases |steps|
  {
    hide Apply, Enabled;
    var n := |steps| - 1;
    assert steps[..|steps|] == steps;
    if b < n {
      forall k: nat | b < k <= n ensures Runs(s, steps[..n][..k]) && x in After(s, steps[..n][..k]).eligible {
        assert steps[..n][..k] == steps[..k];
      }
      SteadySince(s, steps[..n], b, x);
    }
    StepSteady(After(s, steps[..n]), steps[n], x);
  }

  lemma StepAttempts(s: State, step: Step, x: int)
    requires Enabled(s, step) && x in Apply(s, step).history.attempted
    ensures !step.Bound?
    ensures x in s.history.attempted ||
            (step.Attempt? && var c := s.callers[step.t]; c.page[c.done] == x)
  {
  }

  lemma {:induction false} AttemptedSince(s: State, steps: seq<Step>, b: nat, x: int)
    requires Runs(s, steps) && LastBound(steps, b) && x in After(s, steps).history.attempted
    ensures exists i: nat :: b < i && AttemptsAt(s, steps, i, x)
    decreases |steps|
  {
    hide Apply, Enabled;
    var n := |steps| - 1;
    var before := After(s, steps[..n]);
    StepAttempts(before, steps[n], x);
    if x in before.history.attempted {
      AttemptedSince(s, steps[..n], b, x);
      var i: nat :| b < i && AttemptsAt(s, steps[..n], i, x);
      assert steps[..n][..i] == steps[..i];
      assert AttemptsAt(s, steps, i, x);
    } else {
      assert b < n;
      assert AttemptsAt(s, steps, n, x);
    }
  }

  lemma CompletingCovers(s: State, step: Step, x: int)
    requires Inv(s) && Enabled(s, step) && step.WriteCompletion? && x in s.history.steady
    ensures x in s.history.attempted
  {
    assert CallerGood(s, s.callers[step.t]);
  }

  /** A sweep writes its completion cursor only after attempting every id that was eligible from the
      moment its bound was read, whatever crashed, failed or changed in between. */
  lemma CompletionCovers(s: State, steps: seq<Step>, b: nat, step: Step, x: int)
    requires Fresh(s) && Runs(s, steps) && LastBound(steps, b)
    requires Enabled(After(s, steps), step) && step.WriteCompletion?
    requires EligibleSince(s, steps, b, x)
    ensures exists i: nat :: b < i && AttemptsAt(s, steps, i, x)
  {
    hide Apply, Enabled, Inv;
    FreshInv(s);
    RunKeepsInv(s, steps);
    SteadySince(s, steps, b, x);
    CompletingCovers(After(s, steps), step, x);
    AttemptedSince(s, steps, b, x);
  }

  /** Completion is written only by a sweep whose bound was read: it never runs on a foreign checkpoint. */
  lemma {:induction false} ReadableHasBound(s: State, steps: seq<Step>)
    requires Fresh(s) && Runs(s, steps)
    requires Bounded(After(s, steps))
    ensures exists b: nat :: LastBound(steps, b)
    decreases |steps|
  {
    hide Apply, Enabled;
    if steps == [] {
      FreshUnbounded(s);
    } else {
      var n := |steps| - 1;
      if steps[n].Bound? {
        assert LastBound(steps, n);
      } else {
        StepUnbounded(After(s, steps[..n]), steps[n]);
        ReadableHasBound(s, steps[..n]);
        var b: nat :| LastBound(steps[..n], b);
        assert LastBound(steps, b);
      }
    }
  }

  /** A checkpoint is stored or held in memory. */
  predicate Bounded(s: State) {
    Decode(s.cursor).Some? || exists t: nat :: t < |s.callers| && Holds(s.callers[t])
  }

  predicate Holds(c: Place) {
    c.Starting? || c.AtLoop? || c.OnPage? || c.Completing? || c.Completed?
  }

  lemma FreshUnbounded(s: State)
    requires Fresh(s)
    ensures !Bounded(s)
  {
  }

  lemma StepUnbounded(s: State, step: Step)
    requires Enabled(s, step) && !step.Bound? && Bounded(Apply(s, step))
    ensures Bounded(s)
  {
    if step.Load? && Decode(s.cursor).None? {
      assert !Holds(Apply(s, step).callers[step.t]);
    }
    if Acts(step) && Holds(s.callers[step.t]) {
      assert Bounded(s);
    } else {
      forall t: nat | t < |Apply(s, step).callers| && Holds(Apply(s, step).callers[t])
        ensures Bounded(s)
      {
        if t < |s.callers| && Holds(s.callers[t]) {
        }
      }
    }
  }

  /** Wherever a run wrote the completion cursor, it had read a bound before, and every id eligible ever
      since that bound had been attempted in between. */
  lemma CompletionInRun(s: State, steps: seq<Step>, k: nat)
    requires Fresh(s) && Runs(s, steps) && k < |steps| && steps[k].WriteCompletion?
    ensures exists b: nat :: LastBound(steps[..k], b) &&
              forall x | EligibleSince(s, steps[..k], b, x) :: exists i: nat :: b < i && AttemptsAt(s, steps[..k], i, x)
  {
    hide Apply, Inv, EligibleSince, AttemptsAt;
    PrefixRuns(s, steps, k + 1);
    assert steps[..k + 1][..k] == steps[..k];
    var now := After(s, steps[..k]);
    assert Enabled(now, steps[k]);
    assert Holds(now.callers[steps[k].t]);
    ReadableHasBound(s, steps[..k]);
    var b: nat :| LastBound(steps[..k], b);
    forall x | EligibleSince(s, steps[..k], b, x)
      ensures exists i: nat :: b < i && AttemptsAt(s, steps[..k], i, x)
    {
      CompletionCovers(s, steps[..k], b, steps[k], x);
    }
  }

  lemma {:induction false} BoundedSince(s: State, steps: seq<Step>, i: nat)
    requires Runs(s, steps) && i <= |steps| && Bounded(After(s, steps))
    requires forall b | i <= b < |steps| :: !steps[b].Bound?
    ensures Runs(s, steps[..i]) && Bounded(After(s, steps[..i]))
    decreases |steps|
  {
    hide Apply, Enabled, Bounded;
    if i == |steps| {
      assert steps[..i] == steps;
    } else {
      var n := |steps| - 1;
      StepUnbounded(After(s, steps[..n]), steps[n]);
      BoundedSince(s, steps[..n], i);
      assert steps[..n][..i] == steps[..i];
    }
  }

  lemma DeletedUnbounded(s: State, step: Step)
    requires Inv(s) && Enabled(s, step) && step.DeleteProgress? && step.stored
    ensures !Bounded(Apply(s, step))
  {
    var after := Apply(s, step);
    assert Active(s.callers[step.t]);
    forall t: nat | t < |after.callers| ensures !Holds(after.callers[t]) {
      if t != step.t {
        assert after.callers[t] == s.callers[t];
        assert !Active(s.callers[t]);
      }
    }
  }

  /** A completed sweep is over: once its checkpoint has been removed, nothing is fetched, attempted, saved or
      completed before a new bound has been read. */
  lemma CompletionEndsSweep(s: State, steps: seq<Step>, i: nat, j: nat)
    requires Fresh(s) && Runs(s, steps) && i < j < |steps| && steps[i].DeleteProgress? && steps[i].stored
    requires steps[j].SaveStart? || steps[j].Fetch? || steps[j].Attempt? || steps[j].Checkpoint?
             || steps[j].WriteCompletion?
    ensures exists b: nat :: i < b < j && steps[b].Bound?
  {
    hide Apply, Inv, Bounded;
    FreshInv(s);
    PrefixRuns(s, steps, j + 1);
    assert steps[..j + 1][..j] == steps[..j];
    PrefixRuns(s, steps, i + 1);
    assert steps[..i + 1][..i] == steps[..i];
    RunKeepsInv(s, steps[..i]);
    DeletedUnbounded(After(s, steps[..i]), steps[i]);
    ActsBounded(After(s, steps[..j]), steps[j]);
    assert steps[..j][..i + 1] == steps[..i + 1];
    if forall b: nat | i < b < j :: !steps[b].Bound? {
      BoundedSince(s, steps[..j], i + 1);
    }
  }

  lemma ActsBounded(s: State, step: Step)
    requires Enabled(s, step)
    requires step.SaveStart? || step.Fetch? || step.Attempt? || step.Checkpoint? || step.WriteCompletion?
    ensures Bounded(s)
  {
    assert Holds(s.callers[step.t]);
  }

  /** The completions that were stored, and no others, are counted. */
  function CompletionCount(steps: seq<Step>): nat {
    if steps == [] then 0
    else
      var last := steps[|steps| - 1];
      CompletionCount(steps[..|steps| - 1]) + if last.WriteCompletion? && last.stored then 1 else 0
  }

  lemma {:induction false} CompletionsCounted(s: State, steps: seq<Step>)
    requires Runs(s, steps)
    ensures After(s, steps).completions == s.completions + CompletionCount(steps)
    decreases |steps|
  {
    hide Enabled, Apply;
    if steps != [] {
      CompletionsCounted(s, steps[..|steps| - 1]);
      StepCompletes(After(s, steps[..|steps| - 1]), steps[|steps| - 1]);
    }
  }

  lemma StepCompletes(s: State, step: Step)
    requires Enabled(s, step)
    ensures Apply(s, step).completions == s.completions + if step.WriteCompletion? && step.stored then 1 else 0
  {
  }

  // ----- Accounting -----------------------------------------------------------------------------------------

  /** Attempts made by the steps. */
  function AttemptCount(steps: seq<Step>): nat {
    if steps == [] then 0
    else AttemptCount(steps[..|steps| - 1]) + if steps[|steps| - 1].Attempt? then 1 else 0
  }

  /** Steps that can throw work away: a crash, a stop, a checkpoint that was not stored. */
  predicate Interrupts(step: Step) {
    step.Crash? || step.Stop? || (step.Checkpoint? && !step.stored)
  }

  function InterruptionCount(steps: seq<Step>): nat {
    if steps == [] then 0
    else InterruptionCount(steps[..|steps| - 1]) + if Interrupts(steps[|steps| - 1]) then 1 else 0
  }

  lemma StepCounts(s: State, step: Step)
    requires Enabled(s, step) && !step.Bound?
    ensures var h, k := s.history, Apply(s, step).history;
      && k.attempts == h.attempts + (if step.Attempt? then 1 else 0)
      && k.interruptions <= h.interruptions + (if Interrupts(step) then 1 else 0)
  {
  }

  lemma BoundCounts(s: State, step: Step)
    requires Enabled(s, step) && step.Bound?
    ensures Apply(s, step).history.attempts == 0 && Apply(s, step).history.interruptions == 0
  {
  }

  lemma {:induction false} HistoryCounts(s: State, steps: seq<Step>, b: nat)
    requires Runs(s, steps) && LastBound(steps, b)
    ensures After(s, steps).history.attempts == AttemptCount(steps[b + 1..])
    ensures After(s, steps).history.interruptions <= InterruptionCount(steps[b + 1..])
    decreases |steps|
  {
    hide Apply, Enabled;
    var n := |steps| - 1;
    if b < n {
      HistoryCounts(s, steps[..n], b);
      assert steps[b + 1..][..n - b - 1] == steps[..n][b + 1..];
      StepCounts(After(s, steps[..n]), steps[n]);
    } else {
      assert steps[b + 1..] == [];
      BoundCounts(After(s, steps[..n]), steps[n]);
    }
  }

  function Listed(ids: seq<int>): set<int> { set x | x in ids }

  lemma {:induction false} IncreasingSize(ids: seq<int>)
    requires Increasing(ids)
    ensures |Listed(ids)| == |ids|
  {
    if ids != [] {
      var n := |ids| - 1;
      assert ids == ids[..n] + [ids[n]];
      assert ids[n] !in ids[..n];
      assert Listed(ids) == Listed(ids[..n]) + {ids[n]};
      IncreasingSize(ids[..n]);
    }
  }

  lemma CursorCounts(s: State)
    requires Inv(s) && Decode(s.cursor).Some?
    ensures var p, h := Decode(s.cursor).value, s.history;
      && p.scanned <= |h.attempted| && p.scanned <= h.attempts <= p.scanned + h.pending + s.limit * h.interruptions
      && h.pending <= s.limit
  {
    IncreasingSize(s.history.kept);
    SubsetSize(Listed(s.history.kept), s.history.attempted);
  }

  /** A checkpoint's row count is the attempts of the sweep, less at most one page for every crash, stop
      or failed save and the page in progress. It never counts an id twice. */
  lemma ScannedCounts(s: State, steps: seq<Step>, b: nat)
    requires Fresh(s) && Runs(s, steps) && LastBound(steps, b)
    requires Decode(After(s, steps).cursor).Some?
    ensures var p := Decode(After(s, steps).cursor).value; var since := steps[b + 1..];
      && p.scanned <= AttemptCount(since) <= p.scanned + s.limit * (InterruptionCount(since) + 1)
      && p.scanned <= |After(s, steps).history.attempted|
  {
    hide Apply, Enabled, Inv;
    FreshInv(s);
    RunKeepsInv(s, steps);
    LimitStays(s, steps);
    CursorCounts(After(s, steps));
    HistoryCounts(s, steps, b);
    var h, count := After(s, steps).history, InterruptionCount(steps[b + 1..]);
    ProductMonotone(s.limit, h.interruptions, count);
    assert s.limit * (count + 1) == s.limit * count + s.limit;
  }

  lemma ProductMonotone(a: nat, b: nat, c: nat)
    requires b <= c
    ensures a * b <= a * c
  {
  }

  lemma QuietCounts(s: State, t: nat)
    requires Inv(s) && Decode(s.cursor).Some? && t < |s.callers|
    requires s.callers[t].AtLoop? || s.callers[t].Completing? || s.callers[t].Completed?
    requires s.history.interruptions == 0
    ensures s.history.attempts == Decode(s.cursor).value.scanned == s.callers[t].p.scanned
  {
    assert CallerGood(s, s.callers[t]);
  }

  /** Without interruptions the row count between pages is exactly the attempts made. */
  lemma ScannedExact(s: State, steps: seq<Step>, b: nat, t: nat)
    requires Fresh(s) && Runs(s, steps) && LastBound(steps, b)
    requires Decode(After(s, steps).cursor).Some? && t < |After(s, steps).callers|
    requires var c := After(s, steps).callers[t]; c.AtLoop? || c.Completing? || c.Completed?
    requires InterruptionCount(steps[b + 1..]) == 0
    ensures AttemptCount(steps[b + 1..]) == Decode(After(s, steps).cursor).value.scanned
  {
    hide Apply, Enabled, Inv;
    FreshInv(s);
    RunKeepsInv(s, steps);
    HistoryCounts(s, steps, b);
    QuietCounts(After(s, steps), t);
  }

  /** One crash throws away the attempts of at most one page, and those are what a resumed sweep repeats:
      the stored checkpoint is untouched. */
  lemma CrashLosesOnePage(s: State, steps: seq<Step>)
    requires Fresh(s) && Runs(s, steps)
    ensures var now := After(s, steps); var crashed := Apply(now, Crash);
      && crashed.cursor == now.cursor
      && crashed.history.kept == now.history.kept
      && now.history.lost <= crashed.history.lost <= now.history.lost + s.limit
  {
    hide Enabled;
    FreshInv(s);
    RunKeepsInv(s, steps);
    LimitStays(s, steps);
  }

  // ----- Progress -------------------------------------------------------------------------------------------

  /** The eligible ids the sweep has still to visit. */
  function Ahead(eligible: set<int>, p: Progress): set<int> {
    set x | x in eligible && p.lastId < x <= p.through
  }

  /** Page `page` attempted up to `done` leaves exactly the ids behind those `done` to visit: their number
      is a measure that every checkpoint lowers by the rows it adds, down to the empty page. */
  lemma CheckpointMeasure(eligible: set<int>, p: Progress, limit: nat, page: seq<int>, done: nat)
    requires IsPage(eligible, p.lastId, p.through, limit, page) && 0 < done <= |page|
    ensures Ahead(eligible, p) == Ahead(eligible, Advanced(p, page, done)) + Listed(page[..done])
    ensures |Ahead(eligible, p)| == |Ahead(eligible, Advanced(p, page, done))| + done
  {
    var q := Advanced(p, page, done);
    var visited := Listed(page[..done]);
    assert page[done - 1] in page;
    forall x | x in visited ensures x in Ahead(eligible, p) && x !in Ahead(eligible, q) {
      var i :| 0 <= i < done && page[..done][i] == x;
      assert page[i] in page;
    }
    forall x | x in Ahead(eligible, p) && x !in Ahead(eligible, q) ensures x in visited {
      if x in page {
        var i :| 0 <= i < |page| && page[i] == x;
        assert i < done;
        assert page[..done][i] in page[..done];
      } else {
        assert false;
      }
    }
    assert Ahead(eligible, p) == Ahead(eligible, q) + visited;
    IncreasingSize(page[..done]);
  }

  /** A page is as long as the limit allows, so it is empty exactly when nothing is left to visit. */
  lemma PageLength(eligible: set<int>, p: Progress, limit: nat, page: seq<int>)
    requires IsPage(eligible, p.lastId, p.through, limit, page)
    ensures |page| == if limit <= |Ahead(eligible, p)| then limit else |Ahead(eligible, p)|
  {
    IncreasingSize(page);
    assert Listed(page) <= Ahead(eligible, p);
    SubsetSize(Listed(page), Ahead(eligible, p));
    if |page| < limit {
      assert Ahead(eligible, p) == Listed(page);
    }
  }
}
