/** The resumable maintenance sweep. A run reserves a process-wide gate, loads or starts a durable
    keyset checkpoint, and walks the eligible ids in pages, checkpointing after each page. Everything
    outside the run is adversarial: the process may crash between any two steps, any database write may
    fail whether or not it took effect, a run may stop anywhere, rows come and go between queries, and
    the stored checkpoint may be damaged. The deep-health sweep and the archive-range repair sweep are
    both this protocol. */
module Sweep {
  datatype Option<+T> = None | Some(value: T)

  /** The durable checkpoint. A zero `startedAt` is the zero time. */
  datatype Progress = Progress(startedAt: int, lastId: int, through: int, scanned: int)

  /** The maintenance cursor that holds the checkpoint: blank, undecodable text, or an encoded checkpoint. */
  datatype Cursor = Blank | Garbled | Encoded(progress: Progress)

  predicate Acceptable(p: Progress) {
    p.startedAt != 0 && 0 <= p.lastId <= p.through && 0 <= p.scanned
  }

  /** The decoder: the checkpoint, or nothing when it is missing or invalid. */
  function Decode(c: Cursor): Option<Progress> {
    if c.Encoded? && Acceptable(c.progress) then Some(c.progress) else None
  }

  /** Where one caller of the sweep is. */
  datatype Place =
    | Idle
    | Reserved                                       // owns the gate, has not started to run
    | Resetting                                      // found an invalid checkpoint
    | Bounding                                       // about to query the upper bound
    | Starting(p: Progress)                          // about to save a fresh checkpoint
    | AtLoop(p: Progress)                            // top of the page loop
    | OnPage(p: Progress, page: seq<int>, done: nat) // attempting the candidates of a page
    | Completing(p: Progress)                        // found an empty page
    | Completed(p: Progress)                         // wrote the completion cursor
    | Ending                                         // returning, still owns the gate

  /** What the program does not store: the bookkeeping of the sweep in progress. `steady` are the ids
      eligible ever since the bound was read, `kept` the attempts whose checkpoint is stored, `pending`
      the attempts made since, `lost` the attempts whose checkpoint never got stored. */
  datatype History = History(
    steady: set<int>, attempted: set<int>, kept: seq<int>, pending: nat, lost: nat, attempts: nat, interruptions: nat)

  datatype State = State(
    limit: nat, gate: bool, callers: seq<Place>, cursor: Cursor, completions: nat,
    rows: set<int>, eligible: set<int>, history: History)

  datatype Step =
    | TryStart(t: nat)
    | Load(t: nat)
    | Reset(t: nat, stored: bool, ok: bool)
    | Bound(t: nat, now: int, bound: int)
    | SaveStart(t: nat, stored: bool, ok: bool)
    | Fetch(t: nat, page: seq<int>)
    | Attempt(t: nat)
    | Checkpoint(t: nat, stored: bool, ok: bool, more: bool)
    | WriteCompletion(t: nat, stored: bool, ok: bool)
    | DeleteProgress(t: nat, stored: bool, ok: bool)
    | Stop(t: nat)       // an error, a timeout, the end of the work window or a panic
    | Release(t: nat)
    | Crash
    | Change(rows: set<int>, eligible: set<int>)
    | Damage(cursor: Cursor)

  predicate Active(p: Place) { !p.Idle? }

  predicate Increasing(ids: seq<int>) {
    forall i, j | 0 <= i < j < |ids| :: ids[i] < ids[j]
  }

  /** The page query: the least `limit` eligible ids in (after, through], in order. */
  ghost predicate IsPage(eligible: set<int>, after: int, through: int, limit: nat, page: seq<int>) {
    && Increasing(page)
    && |page| <= limit
    && (forall x | x in page :: x in eligible && after < x <= through)
    && (forall x | x in eligible && after < x <= through && x !in page ::
          |page| == limit && forall y | y in page :: y < x)
  }

  /** The bound query: the greatest row id, or zero. */
  ghost predicate IsBound(rows: set<int>, bound: int) {
    if rows == {} then bound == 0 else bound in rows && forall r | r in rows :: r <= bound
  }

  predicate RowsGood(rows: set<int>, eligible: set<int>) {
    eligible <= rows && forall r | r in rows :: 0 < r
  }

  ghost predicate Enabled(s: State, step: Step) {
    match step
    case Crash => true
    case Change(rows, eligible) => RowsGood(rows, eligible)
    case Damage(cursor) => Decode(cursor).None?
    case _ =>
      && step.t < |s.callers|
      && var p := s.callers[step.t];
         match step
         case TryStart(_) => p.Idle?
         case Load(_) => p.Reserved?
         case Reset(_, stored, ok) => p.Resetting? && (ok ==> stored)
         case Bound(_, now, bound) => p.Bounding? && now != 0 && IsBound(s.rows, bound)
         case SaveStart(_, stored, ok) => p.Starting? && (ok ==> stored)
         case Fetch(_, page) => p.AtLoop? && IsPage(s.eligible, p.p.lastId, p.p.through, s.limit, page)
         case Attempt(_) => p.OnPage? && p.done < |p.page|
         case Checkpoint(_, stored, ok, _) => p.OnPage? && 0 < p.done <= |p.page| && (ok ==> stored)
         case WriteCompletion(_, stored, ok) => p.Completing? && (ok ==> stored)
         case DeleteProgress(_, stored, ok) => p.Completed? && (ok ==> stored)
         case Stop(_) => !p.Idle? && !p.Ending?
         case Release(_) => p.Ending?
         case _ => false
  }

  function Move(s: State, t: nat, place: Place): State
    requires t < |s.callers|
  {
    s.(callers := s.callers[t := place])
  }

  /** The checkpoint after `done` candidates of the page. */
  function Advanced(p: Progress, page: seq<int>, done: nat): Progress
    requires 0 < done <= |page|
  {
    p.(lastId := page[done - 1], scanned := p.scanned + done)
  }

  /** Attempts not yet covered by a stored checkpoint are lost. */
  function Interrupt(h: History): History {
    if h.pending == 0 then h
    else h.(pending := 0, lost := h.lost + h.pending, interruptions := h.interruptions + 1)
  }

  ghost function Apply(s: State, step: Step): State
    requires Enabled(s, step)
  {
    match step
    case TryStart(t) => if s.gate then s else Move(s, t, Reserved).(gate := true)
    case Load(t) =>
      Move(s, t, if s.cursor.Blank? then Bounding
                 else match Decode(s.cursor) case Some(p) => AtLoop(p) case None => Resetting)
    case Reset(t, stored, ok) =>
      Move(s, t, if ok then Bounding else Ending).(cursor := if stored then Blank else s.cursor)
    case Bound(t, now, bound) =>
      Move(s, t, Starting(Progress(now, 0, bound, 0))).(history := History(s.eligible, {}, [], 0, 0, 0, 0))
    case SaveStart(t, stored, ok) =>
      var p := s.callers[t].p;
      Move(s, t, if ok then AtLoop(p) else Ending).(cursor := if stored then Encoded(p) else s.cursor)
    case Fetch(t, page) =>
      var p := s.callers[t].p;
      Move(s, t, if page == [] then Completing(p) else OnPage(p, page, 0))
    case Attempt(t) =>
      var p := s.callers[t];
      var h := s.history;
      Move(s, t, p.(done := p.done + 1))
        .(history := h.(attempted := h.attempted + {p.page[p.done]}, pending := h.pending + 1,
                               attempts := h.attempts + 1))
    case Checkpoint(t, stored, ok, more) =>
      var p := s.callers[t];
      var q := Advanced(p.p, p.page, p.done);
      var h := s.history;
      Move(s, t, if ok && p.done == |p.page| && more then AtLoop(q) else Ending)
        .(cursor := if stored then Encoded(q) else s.cursor,
          history := if stored then h.(kept := h.kept + p.page[..p.done], pending := 0) else Interrupt(h))
    case WriteCompletion(t, stored, ok) =>
      Move(s, t, if ok then Completed(s.callers[t].p) else Ending)
        .(completions := if stored then s.completions + 1 else s.completions)
    case DeleteProgress(t, stored, _) =>
      Move(s, t, Ending).(cursor := if stored then Blank else s.cursor)
    case Stop(t) => Move(s, t, Ending).(history := Interrupt(s.history))
    case Release(t) => Move(s, t, Idle).(gate := false)
    case Crash =>
      s.(gate := false, callers := seq(|s.callers|, i => Idle), history := Interrupt(s.history))
    case Change(rows, eligible) =>
      s.(rows := rows, eligible := eligible, history := s.history.(steady := s.history.steady * eligible))
    case Damage(cursor) => s.(cursor := cursor)
  }

  function Init(limit: nat, callers: nat, rows: set<int>, eligible: set<int>, damaged: bool): State {
    State(limit, false, seq(callers, i => Idle), if damaged then Garbled else Blank, 0, rows, eligible,
          History({}, {}, [], 0, 0, 0, 0))
  }

  // ----- The invariant ---------------------------------------------------------------------------------

  ghost predicate GateGood(s: State) {
    && (s.gate ==> exists t: nat :: t < |s.callers| && Active(s.callers[t]))
    && (forall t: nat | t < |s.callers| && Active(s.callers[t]) :: s.gate)
    && (forall t: nat, u: nat
          | t < |s.callers| && u < |s.callers| && Active(s.callers[t]) && Active(s.callers[u]) :: t == u)
  }

  /** The checkpoint `p` is a true account of the sweep so far. */
  ghost predicate Accounts(h: History, p: Progress) {
    && Acceptable(p)
    && |h.kept| == p.scanned
    && Increasing(h.kept)
    && (forall x | x in h.kept :: 0 < x <= p.lastId && x in h.attempted)
    && (forall x | x in h.steady :: 0 < x <= p.through && (x <= p.lastId ==> x in h.attempted))
  }

  ghost predicate Counts(limit: nat, h: History) {
    && h.attempts == |h.kept| + h.pending + h.lost
    && h.pending <= limit
    && h.lost <= limit * h.interruptions
  }

  /** What is true of a page while its first `done` candidates have been attempted. */
  ghost predicate PageGood(h: History, limit: nat, p: Progress, page: seq<int>, done: nat) {
    && 0 < |page| <= limit && done <= |page| && h.pending == done
    && Increasing(page)
    && (forall x | x in page :: p.lastId < x <= p.through)
    && (forall x | x in page[..done] :: x in h.attempted)
    && (forall x | x in h.steady && p.lastId < x && x !in page :: |page| == limit && forall y | y in page :: y < x)
  }

  ghost predicate CallerGood(s: State, p: Place) {
    var h := s.history;
    match p
    case Idle => true
    case Reserved => h.pending == 0
    case Resetting => h.pending == 0
    case Bounding => h.pending == 0 && Decode(s.cursor).None?
    case Starting(q) => h.pending == 0 && Decode(s.cursor).None? && Accounts(h, q)
    case AtLoop(q) => h.pending == 0 && Accounts(h, q) && Agrees(s.cursor, q)
    case OnPage(q, page, done) => Accounts(h, q) && Agrees(s.cursor, q) && PageGood(h, s.limit, q, page, done)
    case Completing(q) => h.pending == 0 && Accounts(h, q) && Agrees(s.cursor, q) && h.steady <= h.attempted
    case Completed(q) => h.pending == 0 && Accounts(h, q) && Agrees(s.cursor, q) && h.steady <= h.attempted
    case Ending => h.pending == 0
  }

  /** The stored checkpoint is the one in memory, unless it was damaged. */
  predicate Agrees(c: Cursor, p: Progress) {
    Decode(c).None? || Decode(c) == Some(p)
  }

  ghost predicate CursorGood(s: State) {
    Decode(s.cursor).Some? ==> Accounts(s.history, s.cursor.progress)
  }

  ghost predicate Quiet(s: State) {
    (forall t: nat | t < |s.callers| :: s.callers[t].Idle?) ==> s.history.pending == 0
  }

  ghost predicate CallersGood(s: State) {
    forall t: nat | t < |s.callers| :: CallerGood(s, s.callers[t])
  }

  ghost predicate Inv(s: State) {
    && 0 < s.limit
    && RowsGood(s.rows, s.eligible)
    && s.history.steady <= s.eligible
    && GateGood(s)
    && Counts(s.limit, s.history)
    && CursorGood(s)
    && Quiet(s)
    && CallersGood(s)
  }

  lemma InitInv(limit: nat, callers: nat, rows: set<int>, eligible: set<int>, damaged: bool)
    requires RowsGood(rows, eligible) && 0 < limit
    ensures Inv(Init(limit, callers, rows, eligible, damaged))
  {
  }

  predicate Acts(step: Step) { !step.Crash? && !step.Change? && !step.Damage? }

  /** What a step of caller `t` owes besides the gate. */
  ghost predicate Kept(s: State, t: nat)
    requires t < |s.callers|
  {
    && s.history.steady <= s.eligible
    && Counts(s.limit, s.history)
    && CursorGood(s)
    && CallerGood(s, s.callers[t])
    && (s.callers[t].Idle? ==> s.history.pending == 0)
  }

  lemma InterruptCounts(limit: nat, h: History)
    requires Counts(limit, h)
    ensures Counts(limit, Interrupt(h))
  {
    assert limit * (h.interruptions + 1) == limit * h.interruptions + limit;
  }

  lemma InterruptAccounts(h: History, p: Progress)
    requires Accounts(h, p)
    ensures Accounts(Interrupt(h), p)
  {
  }

  /** Reading the bound starts a true account of nothing. */
  lemma BoundKeeps(s: State, step: Step)
    requires Inv(s) && Enabled(s, step) && step.Bound?
    ensures Kept(Apply(s, step), step.t)
  {
    assert CallerGood(s, s.callers[step.t]);
  }

  /** An empty page leaves no steady id unattempted. */
  lemma FetchKeeps(s: State, step: Step)
    requires Inv(s) && Enabled(s, step) && step.Fetch?
    ensures Kept(Apply(s, step), step.t)
  {
    assert CallerGood(s, s.callers[step.t]);
    var p, h := s.callers[step.t].p, s.history;
    forall x | x in h.steady && p.lastId < x && x !in step.page
      ensures |step.page| == s.limit && forall y | y in step.page :: y < x
    {
    }
  }

  lemma AttemptKeeps(s: State, step: Step)
    requires Inv(s) && Enabled(s, step) && step.Attempt?
    ensures Kept(Apply(s, step), step.t)
  {
    var p := s.callers[step.t];
    assert CallerGood(s, p);
    var h := Apply(s, step).history;
    forall x | x in p.page[..p.done + 1] ensures x in h.attempted {
      assert p.page[..p.done + 1] == p.page[..p.done] + [p.page[p.done]];
    }
    assert Accounts(h, p.p);
  }

  /** Advancing the cursor over attempted candidates passes no steady id by. */
  lemma AdvancedAccounts(h: History, limit: nat, p: Progress, page: seq<int>, done: nat)
    requires Accounts(h, p) && PageGood(h, limit, p, page, done) && 0 < done
    ensures Accounts(h.(kept := h.kept + page[..done], pending := 0), Advanced(p, page, done))
  {
    var q := Advanced(p, page, done);
    var kept := h.kept + page[..done];
    forall i, j | 0 <= i < j < |kept| ensures kept[i] < kept[j] {
      if i < |h.kept| <= j {
        assert h.kept[i] in h.kept && page[j - |h.kept|] in page;
      }
    }
    forall x | x in kept ensures 0 < x <= q.lastId && x in h.attempted {
      assert page[done - 1] in page;
      if x !in h.kept {
        var i :| 0 <= i < done && page[..done][i] == x;
        assert page[i] in page;
      }
    }
    assert page[done - 1] in page;
    forall x | x in h.steady && x <= q.lastId ensures x in h.attempted {
      if p.lastId < x {
        if x !in page {
          assert false;
        }
        var i :| 0 <= i < |page| && page[i] == x;
        assert i < done;
        assert page[..done][i] == x;
      }
    }
  }

  lemma CheckpointKeeps(s: State, step: Step)
    requires Inv(s) && Enabled(s, step) && step.Checkpoint?
    ensures Kept(Apply(s, step), step.t)
  {
    var p := s.callers[step.t];
    assert CallerGood(s, p);
    if step.stored {
      AdvancedAccounts(s.history, s.limit, p.p, p.page, p.done);
    } else {
      InterruptCounts(s.limit, s.history);
      InterruptAccounts(s.history, p.p);
    }
  }

  lemma StopKeeps(s: State, step: Step)
    requires Inv(s) && Enabled(s, step) && step.Stop?
    ensures Kept(Apply(s, step), step.t)
  {
    InterruptCounts(s.limit, s.history);
    if Decode(s.cursor).Some? {
      InterruptAccounts(s.history, s.cursor.progress);
    }
  }

  lemma OtherKeeps(s: State, step: Step)
    requires Inv(s) && Enabled(s, step) && Acts(step)
    requires !step.Bound? && !step.Fetch? && !step.Attempt? && !step.Checkpoint? && !step.Stop?
    requires step.TryStart? ==> !s.gate
    ensures Kept(Apply(s, step), step.t)
  {
    assert CallerGood(s, s.callers[step.t]);
  }

  // ----- Every step keeps the invariant ------------------------------------------------------------------

  lemma ActingKeeps(s: State, step: Step)
    requires Inv(s) && Enabled(s, step) && Acts(step)
    requires step.TryStart? ==> !s.gate
    ensures Kept(Apply(s, step), step.t)
  {
    hide Apply, Inv, Kept, Enabled, Acts;
    if step.Bound? { BoundKeeps(s, step); }
    else if step.Fetch? { FetchKeeps(s, step); }
    else if step.Attempt? { AttemptKeeps(s, step); }
    else if step.Checkpoint? { CheckpointKeeps(s, step); }
    else if step.Stop? { StopKeeps(s, step); }
    else { OtherKeeps(s, step); }
  }

  /** While one caller acts, or may start, all others are idle. */
  lemma OthersIdle(s: State, step: Step, u: nat)
    requires Inv(s) && Enabled(s, step) && Acts(step) && (step.TryStart? ==> !s.gate)
    requires u < |s.callers| && u != step.t
    ensures s.callers[u].Idle?
  {
  }

  lemma ActsWithGate(s: State, step: Step)
    requires Inv(s) && Enabled(s, step) && Acts(step)
    ensures step.t < |s.callers| && (Active(s.callers[step.t]) ==> s.gate)
  {
  }

  lemma ActingMoves(s: State, step: Step)
    requires Enabled(s, step) && Acts(step) && (step.TryStart? ==> !s.gate)
    requires Active(s.callers[step.t]) ==> s.gate
    ensures var after := Apply(s, step);
      && |after.callers| == |s.callers| && after.limit == s.limit && after.rows == s.rows
      && after.eligible == s.eligible
      && (forall u: nat | u < |s.callers| && u != step.t :: after.callers[u] == s.callers[u])
      && after.gate == Active(after.callers[step.t])
  {
  }

  lemma ActingKeepsInv(s: State, step: Step)
    requires Inv(s) && Enabled(s, step) && Acts(step) && (step.TryStart? ==> !s.gate)
    ensures Inv(Apply(s, step)) && |Apply(s, step).callers| == |s.callers|
  {
    hide Apply, CallerGood, Counts, CursorGood, Enabled, RowsGood;
    var after := Apply(s, step);
    ActingKeeps(s, step);
    ActsWithGate(s, step);
    ActingMoves(s, step);
    forall u: nat | u < |s.callers| && u != step.t ensures after.callers[u].Idle? {
      OthersIdle(s, step, u);
    }
    forall u: nat | u < |after.callers| ensures CallerGood(after, after.callers[u]) {
      if u != step.t {
        IdleGood(after, after.callers[u]);
      }
    }
  }

  lemma IdleGood(s: State, p: Place)
    requires p.Idle?
    ensures CallerGood(s, p)
  {
  }

  lemma CrashKeeps(s: State)
    requires Inv(s)
    ensures Inv(Apply(s, Crash))
  {
    InterruptCounts(s.limit, s.history);
    if Decode(s.cursor).Some? {
      InterruptAccounts(s.history, s.cursor.progress);
    }
  }

  lemma ChangeKeeps(s: State, step: Step)
    requires Inv(s) && Enabled(s, step) && step.Change?
    ensures Inv(Apply(s, step))
  {
    var after := Apply(s, step);
    forall u: nat | u < |after.callers| ensures CallerGood(after, after.callers[u]) {
      assert CallerGood(s, s.callers[u]);
    }
  }

  lemma DamageKeeps(s: State, step: Step)
    requires Inv(s) && Enabled(s, step) && step.Damage?
    ensures Inv(Apply(s, step))
  {
    var after := Apply(s, step);
    forall u: nat | u < |after.callers| ensures CallerGood(after, after.callers[u]) {
      assert CallerGood(s, s.callers[u]);
    }
  }

  /** Every step, by a caller or by the world around it, keeps the invariant. */
  lemma StepKeepsInv(s: State, step: Step)
    requires Inv(s) && Enabled(s, step)
    ensures Inv(Apply(s, step)) && |Apply(s, step).callers| == |s.callers|
  {
    hide Inv;
    if step.Crash? { CrashKeeps(s); }
    else if step.Change? { ChangeKeeps(s, step); }
    else if step.Damage? { DamageKeeps(s, step); }
    else if step.TryStart? && s.gate { }
    else { ActingKeepsInv(s, step); }
  }
}
