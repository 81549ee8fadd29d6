/** The sweep as the program writes it: loops over pages and candidates that update a checkpoint. Every
    database operation, clock reading and context check may go either way, and the world may change
    between any two of them. Each method carries out steps of the protocol in `Sweep` and nothing else,
    so what holds of every run of the protocol holds of this code. */
module SweepService {
  import opened Sweep
  import opened SweepRuns
  import opened FiniteSets

  /** The page query: the least `limit` eligible ids in (after, through], in order. */
  method QueryPage(eligible: set<int>, after: int, through: int, limit: nat) returns (page: seq<int>)
    ensures IsPage(eligible, after, through, limit, page)
  {
    page := [];
    ghost var all := set x | x in eligible && after < x <= through;
    var rest := set x | x in eligible && after < x <= through;
    while |page| < limit && rest != {}
      invariant |page| <= limit && Increasing(page)
      invariant forall x | x in all :: x in page || x in rest
      invariant rest <= all
      invariant forall x | x in page :: x in all && forall y | y in rest :: x < y
      decreases |rest|
    {
      var _ := LeastExists(rest);
      var x :| x in rest && forall y | y in rest :: x <= y;
      forall i | 0 <= i < |page| ensures page[i] < x {
        assert page[i] in page;
      }
      page := page + [x];
      rest := rest - {x};
    }
  }

  lemma PageAhead(eligible: set<int>, after: int, through: int, limit: nat, page: seq<int>, i: nat)
    requires IsPage(eligible, after, through, limit, page) && i < |page|
    ensures after < page[i] <= through
  {
    assert page[i] in page;
  }

  /** The bound query. */
  method QueryBound(rows: set<int>) returns (bound: int)
    ensures IsBound(rows, bound)
  {
    bound := 0;
    var rest := rows;
    var seen: set<int> := {};
    while rest != {}
      invariant seen + rest == rows
      invariant seen == {} ==> bound == 0
      invariant seen != {} ==> bound in seen && forall r | r in seen :: r <= bound
      decreases |rest|
    {
      var _ := Member(rest);
      var r :| r in rest;
      bound := if seen == {} || bound < r then r else bound;
      seen, rest := seen + {r}, rest - {r};
    }
    assert seen == rows;
  }

  /** One of the later steps writes the completion cursor. */
  ghost predicate WroteCompletion(before: seq<Step>, steps: seq<Step>) {
    exists k: nat :: |before| <= k < |steps| && steps[k].WriteCompletion?
  }

  class Service {
    const limit: nat
    var gate: bool
    var cursor: Cursor
    var completions: nat
    var rows: set<int>
    var eligible: set<int>
    ghost const origin: State
    ghost var steps: seq<Step>
    ghost var world: State

    /** Every step so far was one of the protocol's. */
    ghost predicate Traced()
      reads this
    {
      Fresh(origin) && Runs(origin, steps) && world == After(origin, steps)
    }

    /** The fields are the shared part of the protocol's state. */
    ghost predicate Valid()
      reads this
    {
      && Traced() && 0 < limit == world.limit
      && gate == world.gate && cursor == world.cursor && completions == world.completions
      && rows == world.rows && eligible == world.eligible
    }

    ghost predicate At(t: nat, place: Place)
      reads this
    {
      t < |world.callers| && world.callers[t] == place
    }

    constructor (limit: nat, callers: nat, rows: set<int>, eligible: set<int>, damaged: bool)
      requires 0 < limit && RowsGood(rows, eligible)
      ensures Valid() && steps == [] && origin == Init(limit, callers, rows, eligible, damaged)
    {
      this.limit := limit;
      gate, completions := false, 0;
      cursor := if damaged then Garbled else Blank;
      this.rows, this.eligible := rows, eligible;
      origin, steps, world := Init(limit, callers, rows, eligible, damaged), [],
                                Init(limit, callers, rows, eligible, damaged);
    }

    ghost method Take(step: Step)
      requires Traced() && Enabled(world, step)
      modifies this`steps, this`world
      ensures Traced() && steps == old(steps) + [step] && world == Apply(old(world), step)
      ensures AttemptCount(steps) == AttemptCount(old(steps)) + if step.Attempt? then 1 else 0
    {
      hide Enabled, Apply, Fresh;
      steps := steps + [step];
      assert steps[..|steps| - 1] == old(steps);
      world := After(origin, steps);
    }

    /** The steps grew by some that made `attempts` attempts and wrote completion `written` times. */
    twostate predicate Grew(attempts: nat, written: nat)
      reads this
    {
      && old(steps) <= steps && AttemptCount(steps) == AttemptCount(old(steps)) + attempts
      && completions == old(completions) + written
    }

    /** Other callers, imports, deletions and damage to the cursor between two operations of caller `t`. */
    method Elsewhere(t: nat, ghost place: Place)
      requires Valid() && At(t, place)
      modifies this
      ensures Valid() && At(t, place) && Grew(0, 0)
    {
      hide Fresh, Runs, After, AttemptCount;
      var newRows: set<int>, newEligible: set<int> := *, *;
      if RowsGood(newRows, newEligible) {
        rows, eligible := newRows, newEligible;
        Take(Change(rows, eligible));
      }
      var newCursor: Cursor, damaged: bool := *, *;
      if damaged && Decode(newCursor).None? {
        cursor := newCursor;
        Take(Damage(cursor));
      }
    }

    // ----- Single operations: each is one step of the protocol ------------------------------------------

    /** Reserve the shared worker, refused while another caller owns it. */
    method TryStart(t: nat) returns (started: bool)
      requires Valid() && At(t, Idle)
      modifies this
      ensures Valid() && steps == old(steps) + [Sweep.TryStart(t)] && Grew(0, 0)
      ensures started <==> !old(gate)
      ensures At(t, if started then Reserved else Idle)
    {
      hide Fresh, Runs, After, AttemptCount;
      started := !gate;
      gate := true;
      Take(Sweep.TryStart(t));
    }

    method ReadCursor(t: nat) returns (raw: Cursor)
      requires Valid() && At(t, Reserved)
      modifies this
      ensures Valid() && Grew(0, 0)
      ensures raw.Blank? ==> At(t, Bounding)
      ensures !raw.Blank? && Decode(raw).None? ==> At(t, Resetting)
      ensures Decode(raw).Some? ==> At(t, AtLoop(Decode(raw).value))
    {
      hide Fresh, Runs, After, AttemptCount;
      raw := cursor;
      Take(Load(t));
    }

    method DeleteInvalid(t: nat) returns (ok: bool)
      requires Valid() && At(t, Resetting)
      modifies this
      ensures Valid() && Grew(0, 0) && At(t, if ok then Bounding else Ending)
    {
      hide Fresh, Runs, After, AttemptCount;
      var stored: bool := *;
      ok := *;
      ok := ok && stored;
      cursor := if stored then Blank else cursor;
      Take(Reset(t, stored, ok));
    }

    method ReadBound(t: nat) returns (p: Progress)
      requires Valid() && At(t, Bounding)
      modifies this
      ensures Valid() && Grew(0, 0) && At(t, Starting(p))
      ensures p.lastId == p.scanned == 0 && IsBound(old(rows), p.through)
    {
      hide Fresh, Runs, After, AttemptCount;
      var bound := QueryBound(rows);
      var now: int := *;
      now := if now == 0 then 1 else now;
      p := Progress(now, 0, bound, 0);
      Take(Bound(t, now, bound));
    }

    method SaveFirst(t: nat, p: Progress) returns (ok: bool)
      requires Valid() && At(t, Starting(p))
      modifies this
      ensures Valid() && Grew(0, 0) && At(t, if ok then AtLoop(p) else Ending)
      ensures ok ==> cursor == Encoded(p)
    {
      hide Fresh, Runs, After, AttemptCount;
      var stored: bool := *;
      ok := *;
      ok := ok && stored;
      cursor := if stored then Encoded(p) else cursor;
      Take(SaveStart(t, stored, ok));
    }

    method FetchPage(t: nat, p: Progress) returns (page: seq<int>)
      requires Valid() && At(t, AtLoop(p))
      modifies this
      ensures Valid() && Grew(0, 0) && At(t, if page == [] then Completing(p) else OnPage(p, page, 0))
      ensures IsPage(old(eligible), p.lastId, p.through, limit, page)
    {
      hide Fresh, Runs, After, AttemptCount;
      page := QueryPage(eligible, p.lastId, p.through, limit);
      Take(Fetch(t, page));
    }

    method AttemptNext(t: nat, page: seq<int>, ghost p: Progress, ghost done: nat)
      requires Valid() && At(t, OnPage(p, page, done)) && done < |page|
      modifies this
      ensures Valid() && Grew(1, 0) && At(t, OnPage(p, page, done + 1))
    {
      hide Fresh, Runs, After, AttemptCount;
      Take(Attempt(t));
    }

    /** Save the checkpoint behind the attempted prefix; `more` says the work window is still open. */
    method SaveCheckpoint(t: nat, q: Progress, ghost p: Progress, page: seq<int>, done: nat, more: bool)
        returns (ok: bool)
      requires Valid() && At(t, OnPage(p, page, done)) && 0 < done <= |page| && q == Advanced(p, page, done)
      modifies this
      ensures Valid() && Grew(0, 0) && At(t, if ok && done == |page| && more then AtLoop(q) else Ending)
      ensures ok ==> cursor == Encoded(q)
    {
      hide Fresh, Runs, After, AttemptCount;
      var stored: bool := *;
      ok := *;
      ok := ok && stored;
      cursor := if stored then Encoded(q) else cursor;
      Take(Checkpoint(t, stored, ok, more));
    }

    method TouchCompletion(t: nat, ghost p: Progress) returns (ok: bool)
      requires Valid() && At(t, Completing(p))
      modifies this
      ensures Valid() && At(t, if ok then Completed(p) else Ending)
      ensures Grew(0, 1) || (!ok && Grew(0, 0))
      ensures ok ==> steps == old(steps) + [WriteCompletion(t, true, true)]
    {
      hide Fresh, Runs, After, AttemptCount;
      var stored: bool := *;
      ok := *;
      ok := ok && stored;
      completions := if stored then completions + 1 else completions;
      Take(WriteCompletion(t, stored, ok));
    }

    method DeleteCheckpoint(t: nat, ghost p: Progress) returns (ok: bool)
      requires Valid() && At(t, Completed(p))
      modifies this
      ensures Valid() && Grew(0, 0) && At(t, Ending)
      ensures ok ==> cursor.Blank?
    {
      hide Fresh, Runs, After, AttemptCount;
      var stored: bool := *;
      ok := *;
      ok := ok && stored;
      cursor := if stored then Blank else cursor;
      Take(DeleteProgress(t, stored, ok));
    }

    ghost method GiveUp(t: nat, place: Place)
      requires Valid() && At(t, place) && !place.Idle? && !place.Ending?
      modifies this`steps, this`world
      ensures Valid() && Grew(0, 0) && At(t, Ending)
    {
      hide Fresh, Runs, After, AttemptCount;
      Take(Stop(t));
    }

    method FreeGate(t: nat)
      requires Valid() && At(t, Ending)
      modifies this
      ensures Valid() && Grew(0, 0) && At(t, Idle) && !gate && cursor == old(cursor)
    {
      hide Fresh, Runs, After, AttemptCount;
      gate := false;
      Take(Release(t));
    }

    // ----- The sweep ---------------------------------------------------------------------------------------

    /** Load the stored checkpoint, or store a fresh one; an invalid one is deleted first. */
    method LoadOrStart(t: nat) returns (ok: bool, p: Progress)
      requires Valid() && At(t, Reserved)
      modifies this
      ensures Valid() && Grew(0, 0) && At(t, if ok then AtLoop(p) else Ending)
    {
      hide Valid, At, AttemptCount, IsPage;
      ok, p := *, Progress(0, 0, 0, 0);
      if !ok {
        GiveUp(t, Reserved);
        return;
      }
      var raw := ReadCursor(t);
      if !raw.Blank? {
        match Decode(raw)
        case Some(progress) =>
          p := progress;
          return;
        case None =>
          Elsewhere(t, Resetting);
          ok := DeleteInvalid(t);
          if !ok {
            return;
          }
      }
      Elsewhere(t, Bounding);
      ok := *;
      if !ok {
        GiveUp(t, Bounding);
        return;
      }
      p := ReadBound(t);
      Elsewhere(t, Starting(p));
      ok := SaveFirst(t, p);
    }

    /** Attempt the candidates of a page in order until the work window or the context ends; `processed` is
        the contiguous prefix attempted. */
    method RunCandidates(t: nat, page: seq<int>, ghost p: Progress) returns (scanned: nat, processed: nat)
      requires Valid() && At(t, OnPage(p, page, 0))
      modifies this
      ensures Valid() && Grew(processed, 0) && At(t, OnPage(p, page, processed))
      ensures scanned == processed <= |page|
    {
      hide Valid, At, AttemptCount, IsPage;
      scanned, processed := 0, 0;
      for i := 0 to |page|
        invariant Valid() && Grew(processed, 0) && At(t, OnPage(p, page, processed))
        invariant scanned == processed == i
      {
        var stop: bool := *;
        if stop {
          break;
        }
        scanned := scanned + 1;
        AttemptNext(t, page, p, processed);
        processed := processed + 1;
        Elsewhere(t, OnPage(p, page, processed));
      }
    }

    /** One bounded work window of the sweep. `scanned` is the number of attempts this window made, and a
        window that reports completion wrote it and removed the checkpoint. */
    method RunSweepStep(t: nat) returns (scanned: nat, ok: bool, completed: bool)
      requires Valid() && At(t, Reserved)
      modifies this
      ensures Valid() && At(t, Ending)
      ensures Grew(scanned, 1) || (!completed && Grew(scanned, 0))
      ensures completed ==> ok && cursor.Blank? && WroteCompletion(old(steps), steps)
    {
      hide Valid, At, AttemptCount, IsPage;
      scanned, completed := 0, false;
      var p;
      ok, p := LoadOrStart(t);
      if !ok {
        return;
      }
      while true
        invariant Valid() && Grew(scanned, 0) && At(t, AtLoop(p))
        decreases p.through - p.lastId
      {
        Elsewhere(t, AtLoop(p));
        ok := *;
        if !ok {
          GiveUp(t, AtLoop(p));
          return;
        }
        ghost var listed := eligible;
        var page := FetchPage(t, p);
        if |page| == 0 {
          Elsewhere(t, Completing(p));
          ok, completed := Complete(t, p);
          return;
        }
        Elsewhere(t, OnPage(p, page, 0));
        var pageScanned, processed := RunCandidates(t, page, p);
        scanned := scanned + pageScanned;
        if processed == 0 {
          ok := *;
          GiveUp(t, OnPage(p, page, 0));
          return;
        }
        var q := p.(lastId := page[processed - 1], scanned := p.scanned + pageScanned);
        var more: bool := *;
        ok := SaveCheckpoint(t, q, p, page, processed, more);
        if !ok || processed < |page| || !more {
          var ended: bool := *;
          ok := ok && !ended;
          return;
        }
        PageAhead(listed, p.lastId, p.through, limit, page, processed - 1);
        p := q;
      }
    }

    /** Nothing is eligible any more: write the completion cursor, then delete the checkpoint. The
        deep-health sweep first resets sample-only releases, which may fail. */
    method Complete(t: nat, ghost p: Progress) returns (ok: bool, completed: bool)
      requires Valid() && At(t, Completing(p))
      modifies this
      ensures Valid() && At(t, Ending) && completed == ok
      ensures Grew(0, 1) || (!completed && Grew(0, 0))
      ensures completed ==> cursor.Blank? && WroteCompletion(old(steps), steps)
    {
      hide Valid, At, AttemptCount, IsPage;
      completed := false;
      ok := *;
      if !ok {
        GiveUp(t, Completing(p));
        return;
      }
      ok := TouchCompletion(t, p);
      if ok {
        ghost var written := |steps| - 1;
        Elsewhere(t, Completed(p));
        ok := DeleteCheckpoint(t, p);
        completed := ok;
        assert steps[written].WriteCompletion?;
      }
    }

    /** The function a successful reservation hands out: run the step, then give up the worker. */
    method Run(t: nat) returns (scanned: nat, ok: bool, completed: bool)
      requires Valid() && At(t, Reserved)
      modifies this
      ensures Valid() && At(t, Idle) && !gate
      ensures Grew(scanned, 1) || (!completed && Grew(scanned, 0))
      ensures completed ==> ok && cursor.Blank? && WroteCompletion(old(steps), steps)
    {
      hide Valid, At, AttemptCount, IsPage;
      scanned, ok, completed := RunSweepStep(t);
      ghost var after := steps;
      FreeGate(t);
      if completed {
        ghost var k: nat :| |old(steps)| <= k < |after| && after[k].WriteCompletion?;
        assert steps[k].WriteCompletion?;
      }
    }
  }
}
