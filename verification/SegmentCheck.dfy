/** `StrictCheckAllSegments` as a protocol of parallel workers. Each step is what one worker does under
    the lock, one article check, or one look at a context; a run interleaves the steps in any order. What
    a check answers and when the caller's context ends are arbitrary. */
module SegmentCheck {
  datatype Option<+T> = None | Some(value: T)

  const CONCURRENCY: nat := 4

  datatype Place =
    | AtLoop
    | Claiming
    | Checking(i: nat)
    | Pausing(i: nat)      // the delay before the second check
    | Confirming(i: nat)
    | Recording(i: nat)    // both checks found the article missing
    | Cancelling
    | Exited

  /** `ctxDone` is the workers' shared context, `parentDone` the caller's. The program stores neither
      `cleared`, the indices a check did not find missing, nor `confirmed`, those found missing twice. */
  datatype State = State(
    count: nat, workers: seq<Place>, next: nat, first: Option<nat>, ctxDone: bool, parentDone: bool,
    cleared: set<nat>, confirmed: set<nat>)

  datatype Step =
    | LoopTest(w: nat)
    | Claim(w: nat)
    | CheckReturns(w: nat, missing: bool)
    | PauseEnds(w: nat, cut: bool)
    | ConfirmReturns(w: nat, missing: bool)
    | Record(w: nat)
    | Cancel(w: nat)
    | ParentEnds
    | Propagate       // the end of the caller's context reaches the workers' one

  function Init(count: nat): State {
    State(count, seq(CONCURRENCY, i => AtLoop), 0, None, false, false, {}, {})
  }

  predicate Enabled(s: State, step: Step) {
    match step
    case ParentEnds => !s.parentDone
    case Propagate => s.parentDone && !s.ctxDone
    case _ =>
      && step.w < |s.workers|
      && var p := s.workers[step.w];
         match step
         case LoopTest(_) => p.AtLoop?
         case Claim(_) => p.Claiming?
         case CheckReturns(_, _) => p.Checking?
         case PauseEnds(_, cut) => p.Pausing? && (cut ==> s.ctxDone)
         case ConfirmReturns(_, _) => p.Confirming?
         case Record(_) => p.Recording?
         case Cancel(_) => p.Cancelling?
         case _ => false
  }

  function Move(s: State, w: nat, p: Place): State
    requires w < |s.workers|
  {
    s.(workers := s.workers[w := p])
  }

  function Apply(s: State, step: Step): State
    requires Enabled(s, step)
  {
    match step
    case LoopTest(w) => Move(s, w, if s.ctxDone then Exited else Claiming)
    case Claim(w) => Move(s, w, if s.next < s.count then Checking(s.next) else Exited).(next := s.next + 1)
    case CheckReturns(w, missing) =>
      var i := s.workers[w].i;
      if missing then Move(s, w, Pausing(i)) else Move(s, w, AtLoop).(cleared := s.cleared + {i})
    case PauseEnds(w, cut) => Move(s, w, if cut then Exited else Confirming(s.workers[w].i))
    case ConfirmReturns(w, missing) =>
      var i := s.workers[w].i;
      if missing then Move(s, w, Recording(i)).(confirmed := s.confirmed + {i})
      else Move(s, w, AtLoop).(cleared := s.cleared + {i})
    case Record(w) =>
      var i := s.workers[w].i;
      Move(s, w, Cancelling).(first := if s.first.None? || i < s.first.value then Some(i) else s.first)
    case Cancel(w) => Move(s, w, Exited).(ctxDone := true)
    case ParentEnds => s.(parentDone := true)
    case Propagate => s.(ctxDone := true)
  }

  // ----- The invariant -------------------------------------------------------------------------------------

  predicate Holds(p: Place, i: nat) {
    p == Checking(i) || p == Pausing(i) || p == Confirming(i) || p == Recording(i)
  }

  ghost predicate Held(s: State, i: nat) {
    exists w: nat :: w < |s.workers| && Holds(s.workers[w], i)
  }

  predicate WorkerGood(s: State, p: Place) {
    match p
    case Checking(i) => i < s.next && i < s.count && i !in s.cleared && i !in s.confirmed
    case Pausing(i) => i < s.next && i < s.count && i !in s.cleared && i !in s.confirmed
    case Confirming(i) => i < s.next && i < s.count && i !in s.cleared && i !in s.confirmed
    case Recording(i) => i < s.next && i < s.count && i !in s.cleared && i in s.confirmed
    case Cancelling => s.first.Some?
    case Exited => s.ctxDone || s.count <= s.next
    case _ => true
  }

  ghost predicate ConfirmedGood(s: State, j: nat) {
    && j < s.count && j < s.next && j !in s.cleared
    && ((s.first.Some? && s.first.value <= j) || exists w: nat :: w < |s.workers| && s.workers[w] == Recording(j))
  }

  ghost predicate Inv(s: State) {
    && (forall w: nat | w < |s.workers| :: WorkerGood(s, s.workers[w]))
    && (forall v: nat, w: nat, i: nat
          | v < |s.workers| && w < |s.workers| && Holds(s.workers[v], i) && Holds(s.workers[w], i) :: v == w)
    && (forall j | j in s.cleared :: j < s.count && j < s.next)
    && (forall j | j in s.confirmed :: ConfirmedGood(s, j))
    && (forall i: nat | i < s.next && i < s.count :: Held(s, i) || i in s.cleared || i in s.confirmed || s.ctxDone)
    && (s.first.Some? ==> s.first.value in s.confirmed)
    && (s.ctxDone ==> s.parentDone || s.first.Some?)
  }

  lemma InitInv(count: nat)
    ensures Inv(Init(count))
  {
  }

  lemma Apart(s: State, v: nat, w: nat, i: nat)
    requires Inv(s) && v < |s.workers| && w < |s.workers| && v != w && Holds(s.workers[v], i)
    ensures !Holds(s.workers[w], i)
  {
  }

  predicate Acts(step: Step) { !step.ParentEnds? && !step.Propagate? }

  lemma ActingStays(s: State, step: Step)
    requires Inv(s) && Enabled(s, step) && Acts(step)
    ensures WorkerGood(Apply(s, step), Apply(s, step).workers[step.w])
  {
    assert WorkerGood(s, s.workers[step.w]);
  }

  /** A step by another worker does not touch the index this one holds. */
  lemma OthersStay(s: State, step: Step, w: nat)
    requires Inv(s) && Enabled(s, step) && w < |s.workers| && (Acts(step) ==> step.w != w)
    ensures WorkerGood(Apply(s, step), s.workers[w])
  {
    hide Inv;
    var p, after := s.workers[w], Apply(s, step);
    GoodNow(s, w);
    if p.Checking? || p.Pausing? || p.Confirming? || p.Recording? {
      if Acts(step) {
        Apart(s, w, step.w, p.i);
      }
      assert p.i in after.cleared <==> p.i in s.cleared;
      assert p.i in after.confirmed <==> p.i in s.confirmed;
    }
  }

  lemma GoodNow(s: State, w: nat)
    requires Inv(s) && w < |s.workers|
    ensures WorkerGood(s, s.workers[w])
  {
  }

  lemma WorkersStay(s: State, step: Step, w: nat)
    requires Inv(s) && Enabled(s, step) && w < |s.workers|
    ensures |Apply(s, step).workers| == |s.workers|
    ensures WorkerGood(Apply(s, step), Apply(s, step).workers[w])
  {
    hide Inv, WorkerGood;
    if Acts(step) && step.w == w {
      ActingStays(s, step);
    } else {
      OthersStay(s, step, w);
    }
  }

  lemma HolderWas(s: State, step: Step, w: nat, i: nat)
    requires Enabled(s, step) && w < |Apply(s, step).workers| && Holds(Apply(s, step).workers[w], i)
    ensures w < |s.workers| && (Holds(s.workers[w], i) || (step == Claim(w) && i == s.next))
  {
  }

  lemma HoldersStay(s: State, step: Step, v: nat, w: nat, i: nat)
    requires Inv(s) && Enabled(s, step) && v < |Apply(s, step).workers| && w < |Apply(s, step).workers|
    requires Holds(Apply(s, step).workers[v], i) && Holds(Apply(s, step).workers[w], i)
    ensures v == w
  {
    hide Apply, Enabled;
    HolderWas(s, step, v, i);
    HolderWas(s, step, w, i);
    assert WorkerGood(s, s.workers[v]) && WorkerGood(s, s.workers[w]);
  }

  lemma ConfirmedStay(s: State, step: Step, j: nat)
    requires Inv(s) && Enabled(s, step) && j in Apply(s, step).confirmed
    ensures ConfirmedGood(Apply(s, step), j)
  {
    var after := Apply(s, step);
    if Acts(step) {
      assert WorkerGood(s, s.workers[step.w]);
    }
    if j in s.confirmed {
      assert ConfirmedGood(s, j);
      if w: nat :| w < |s.workers| && s.workers[w] == Recording(j) {
        assert after.workers[w] == Recording(j) || (step == Record(w));
      }
    } else {
      assert after.workers[step.w] == Recording(j);
    }
  }

  lemma ClaimedStay(s: State, step: Step, i: nat)
    requires Inv(s) && Enabled(s, step) && i < Apply(s, step).next && i < s.count
    ensures var after := Apply(s, step); Held(after, i) || i in after.cleared || i in after.confirmed || after.ctxDone
  {
    var after := Apply(s, step);
    if i < s.next {
      if Held(s, i) {
        var w: nat :| w < |s.workers| && Holds(s.workers[w], i);
        assert WorkerGood(s, s.workers[w]);
        assert Holds(after.workers[w], i) || i in after.cleared || i in after.confirmed || after.ctxDone;
      }
    } else {
      assert Holds(after.workers[step.w], i);
    }
  }

  /** Every step of every worker keeps the invariant. */
  lemma StepKeepsInv(s: State, step: Step)
    requires Inv(s) && Enabled(s, step)
    ensures Inv(Apply(s, step)) && |Apply(s, step).workers| == |s.workers| && Apply(s, step).count == s.count
  {
    hide WorkerGood, Holds, Held, ConfirmedGood;
    var after := Apply(s, step);
    assert |after.workers| == |s.workers|;
    forall w: nat | w < |s.workers| ensures WorkerGood(after, after.workers[w]) {
      WorkersStay(s, step, w);
    }
    forall v: nat, w: nat, i: nat
      | v < |s.workers| && w < |s.workers| && Holds(after.workers[v], i) && Holds(after.workers[w], i)
      ensures v == w
    {
      HoldersStay(s, step, v, w, i);
    }
    forall j | j in after.confirmed ensures ConfirmedGood(after, j) {
      ConfirmedStay(s, step, j);
    }
    forall i: nat | i < after.next && i < s.count
      ensures Held(after, i) || i in after.cleared || i in after.confirmed || after.ctxDone
    {
      ClaimedStay(s, step, i);
    }
    RestStays(s, step);
  }

  lemma RestStays(s: State, step: Step)
    requires Inv(s) && Enabled(s, step)
    ensures var after := Apply(s, step);
      && (forall j | j in after.cleared :: j < after.count && j < after.next)
      && (after.first.Some? ==> after.first.value in after.confirmed)
      && (after.ctxDone ==> after.parentDone || after.first.Some?)
  {
    if Acts(step) {
      assert WorkerGood(s, s.workers[step.w]);
    }
  }

  // ----- Runs ------------------------------------------------------------------------------------------------

  ghost predicate Runs(s: State, steps: seq<Step>)
    decreases |steps|, 0
  {
    steps == [] ||
    (Runs(s, steps[..|steps| - 1]) && Enabled(After(s, steps[..|steps| - 1]), steps[|steps| - 1]))
  }

  ghost function After(s: State, steps: seq<Step>): State
    requires Runs(s, steps)
    decreases |steps|, 1
  {
    if steps == [] then s else Apply(After(s, steps[..|steps| - 1]), steps[|steps| - 1])
  }

  lemma {:induction false} RunKeepsInv(count: nat, steps: seq<Step>)
    requires Runs(Init(count), steps)
    ensures var s := After(Init(count), steps); Inv(s) && |s.workers| == CONCURRENCY && s.count == count
    decreases |steps|
  {
    hide Inv, Apply, Enabled;
    if steps == [] {
      InitInv(count);
    } else {
      RunKeepsInv(count, steps[..|steps| - 1]);
      StepKeepsInv(After(Init(count), steps[..|steps| - 1]), steps[|steps| - 1]);
    }
  }

  /** Step `k` is the answer to a check by a worker at place `p`. */
  ghost predicate Answered(s: State, steps: seq<Step>, k: nat, p: Place, missing: bool) {
    && k < |steps| && (steps[k].CheckReturns? || steps[k].ConfirmReturns?) && steps[k].missing == missing
    && Runs(s, steps[..k]) && Enabled(After(s, steps[..k]), steps[k])
    && After(s, steps[..k]).workers[steps[k].w] == p
  }

  /** Step `k` hands out index `i`. */
  ghost predicate ClaimsAt(s: State, steps: seq<Step>, k: nat, i: nat) {
    k < |steps| && steps[k].Claim? && Runs(s, steps[..k]) && After(s, steps[..k]).next == i
  }

  lemma StepNext(s: State, step: Step)
    requires Enabled(s, step)
    ensures Apply(s, step).next == s.next + if step.Claim? then 1 else 0
  {
  }

  lemma {:induction false} NextGrows(s: State, steps: seq<Step>, k: nat)
    requires Runs(s, steps) && k <= |steps|
    ensures Runs(s, steps[..k]) && After(s, steps[..k]).next <= After(s, steps).next
    ensures k < |steps| && steps[k].Claim? ==> After(s, steps[..k]).next < After(s, steps).next
    decreases |steps|
  {
    hide Apply, Enabled;
    if k == |steps| {
      assert steps[..k] == steps;
    } else {
      StepNext(After(s, steps[..|steps| - 1]), steps[|steps| - 1]);
      NextGrows(s, steps[..|steps| - 1], k);
      assert steps[..|steps| - 1][..k] == steps[..k];
    }
  }

  /** No index is handed out twice, to one worker or to two. */
  lemma ClaimedOnce(count: nat, steps: seq<Step>, k: nat, l: nat, i: nat)
    requires Runs(Init(count), steps) && ClaimsAt(Init(count), steps, k, i) && ClaimsAt(Init(count), steps, l, i)
    ensures k == l
  {
    if k < l {
      NextGrows(Init(count), steps, l);
      assert steps[..l][..k] == steps[..k];
      NextGrows(Init(count), steps[..l], k);
    } else if l < k {
      NextGrows(Init(count), steps, k);
      assert steps[..k][..l] == steps[..l];
      NextGrows(Init(count), steps[..k], l);
    }
  }

  /** Some check of index `i` did not find its article missing. */
  ghost predicate FoundPresent(s: State, steps: seq<Step>, i: nat) {
    exists k: nat :: Answered(s, steps, k, Checking(i), false) || Answered(s, steps, k, Confirming(i), false)
  }

  /** The first check of index `i` found its article missing. */
  ghost predicate Suspected(s: State, steps: seq<Step>, i: nat) {
    exists k: nat :: Answered(s, steps, k, Checking(i), true)
  }

  /** Both checks of index `i` found its article missing. */
  ghost predicate FoundMissing(s: State, steps: seq<Step>, i: nat) {
    Suspected(s, steps, i) && exists k: nat :: Answered(s, steps, k, Confirming(i), true)
  }

  lemma AnswerKept(s: State, steps: seq<Step>, k: nat, p: Place, missing: bool)
    requires steps != [] && Answered(s, steps[..|steps| - 1], k, p, missing)
    ensures Answered(s, steps, k, p, missing)
  {
    assert steps[..|steps| - 1][..k] == steps[..k];
  }

  lemma EvidenceKept(s: State, steps: seq<Step>, i: nat)
    requires steps != []
    ensures FoundPresent(s, steps[..|steps| - 1], i) ==> FoundPresent(s, steps, i)
    ensures Suspected(s, steps[..|steps| - 1], i) ==> Suspected(s, steps, i)
    ensures FoundMissing(s, steps[..|steps| - 1], i) ==> FoundMissing(s, steps, i)
  {
    hide Answered;
    var before := steps[..|steps| - 1];
    if k: nat :| Answered(s, before, k, Checking(i), false) || Answered(s, before, k, Confirming(i), false) {
      if Answered(s, before, k, Checking(i), false) {
        AnswerKept(s, steps, k, Checking(i), false);
      } else {
        AnswerKept(s, steps, k, Confirming(i), false);
      }
    }
    if k: nat :| Answered(s, before, k, Checking(i), true) {
      AnswerKept(s, steps, k, Checking(i), true);
    }
    if k: nat :| Answered(s, before, k, Confirming(i), true) {
      AnswerKept(s, steps, k, Confirming(i), true);
    }
  }

  /** What one step adds to the bookkeeping. */
  lemma StepEvidence(s: State, step: Step, i: nat)
    requires Enabled(s, step)
    ensures i in Apply(s, step).cleared && i !in s.cleared ==>
      (step.CheckReturns? && !step.missing && s.workers[step.w] == Checking(i)) ||
      (step.ConfirmReturns? && !step.missing && s.workers[step.w] == Confirming(i))
    ensures i in Apply(s, step).confirmed && i !in s.confirmed ==>
      step.ConfirmReturns? && step.missing && s.workers[step.w] == Confirming(i)
    ensures s.confirmed <= Apply(s, step).confirmed && s.cleared <= Apply(s, step).cleared
    ensures step.ConfirmReturns? && step.missing && s.workers[step.w] == Confirming(i) ==> i in Apply(s, step).confirmed
  {
  }

  predicate Doubted(p: Place, i: nat) { p == Pausing(i) || p == Confirming(i) }

  lemma StepDoubts(s: State, step: Step, w: nat, i: nat)
    requires Enabled(s, step) && w < |Apply(s, step).workers| && Doubted(Apply(s, step).workers[w], i)
    ensures w < |s.workers|
    ensures Doubted(s.workers[w], i) || (step == CheckReturns(w, true) && s.workers[w] == Checking(i))
  {
  }

  /** A worker past its first check of an index saw it missing. */
  lemma {:induction false} DoubtHasReason(s: State, steps: seq<Step>, w: nat, i: nat)
    requires Runs(s, steps) && w < |After(s, steps).workers| && Doubted(After(s, steps).workers[w], i)
    requires forall v: nat | v < |s.workers| :: s.workers[v] == AtLoop
    ensures Suspected(s, steps, i)
    decreases |steps|
  {
    hide Apply, Enabled;
    if steps != [] {
      var n := |steps| - 1;
      StepDoubts(After(s, steps[..n]), steps[n], w, i);
      if Doubted(After(s, steps[..n]).workers[w], i) {
        DoubtHasReason(s, steps[..n], w, i);
        EvidenceKept(s, steps, i);
      } else {
        assert Answered(s, steps, n, Checking(i), true);
      }
    }
  }

  lemma {:induction false} ClearedHasReason(s: State, steps: seq<Step>, i: nat)
    requires Runs(s, steps) && s.cleared == {} && i in After(s, steps).cleared
    ensures FoundPresent(s, steps, i)
    decreases |steps|
  {
    hide Apply, Enabled;
    if steps != [] {
      var n := |steps| - 1;
      StepEvidence(After(s, steps[..n]), steps[n], i);
      if i in After(s, steps[..n]).cleared {
        ClearedHasReason(s, steps[..n], i);
        EvidenceKept(s, steps, i);
      } else {
        assert Answered(s, steps, n, Checking(i), false) || Answered(s, steps, n, Confirming(i), false);
      }
    }
  }

  lemma {:induction false} ConfirmedHasReason(s: State, steps: seq<Step>, i: nat)
    requires Runs(s, steps) && s.confirmed == {} && i in After(s, steps).confirmed
    requires forall v: nat | v < |s.workers| :: s.workers[v] == AtLoop
    ensures FoundMissing(s, steps, i)
    decreases |steps|
  {
    hide Apply, Enabled;
    if steps != [] {
      var n := |steps| - 1;
      StepEvidence(After(s, steps[..n]), steps[n], i);
      if i in After(s, steps[..n]).confirmed {
        ConfirmedHasReason(s, steps[..n], i);
      } else {
        WorkerExists(After(s, steps[..n]), steps[n]);
        DoubtHasReason(s, steps[..n], steps[n].w, i);
        assert Answered(s, steps, n, Confirming(i), true);
      }
      EvidenceKept(s, steps, i);
    }
  }

  lemma WorkerExists(s: State, step: Step)
    requires Enabled(s, step) && Acts(step)
    ensures step.w < |s.workers|
  {
  }

  lemma {:induction false} MissingIsConfirmed(s: State, steps: seq<Step>, i: nat)
    requires Runs(s, steps) && FoundMissing(s, steps, i)
    ensures i in After(s, steps).confirmed
    decreases |steps|
  {
    hide Apply, Enabled;
    var k: nat :| Answered(s, steps, k, Confirming(i), true);
    ConfirmStays(s, steps, k, i);
  }

  lemma {:induction false} ConfirmStays(s: State, steps: seq<Step>, k: nat, i: nat)
    requires Runs(s, steps) && Answered(s, steps, k, Confirming(i), true)
    ensures i in After(s, steps).confirmed
    decreases |steps|
  {
    hide Apply;
    var n := |steps| - 1;
    StepEvidence(After(s, steps[..n]), steps[n], i);
    if k < n {
      assert steps[..n][..k] == steps[..k];
      ConfirmStays(s, steps[..n], k, i);
    }
  }

  // ----- The verdict -----------------------------------------------------------------------------------------

  /** What the check returns: nothing wrong, the named article missing, or the caller's own context error. */
  datatype Verdict = Healthy | Missing(i: nat) | CutShort

  predicate AllExited(s: State) {
    forall w: nat | w < |s.workers| :: s.workers[w].Exited?
  }

  function VerdictOf(s: State): Verdict {
    match s.first
    case Some(i) => Missing(i)
    case None => if s.parentDone then CutShort else Healthy
  }

  /** The article named by the verdict is the least of those confirmed. */
  lemma VerdictFacts(s: State)
    requires Inv(s) && AllExited(s) && |s.workers| > 0
    ensures s.confirmed == {} <==> s.first.None?
    ensures s.first.Some? ==> s.first.value in s.confirmed && forall j | j in s.confirmed :: s.first.value <= j
    ensures VerdictOf(s).Healthy? ==> forall i: nat | i < s.count :: i in s.cleared
  {
    forall j | j in s.confirmed ensures s.first.Some? && s.first.value <= j {
      assert ConfirmedGood(s, j);
    }
    assert WorkerGood(s, s.workers[0]);
    if VerdictOf(s).Healthy? {
      forall i: nat | i < s.count ensures i in s.cleared {
        assert !Held(s, i);
      }
    }
  }

  /** In every interleaving: a healthy verdict means that every article was examined and one of its checks
      did not find it missing; a missing verdict names an article both of whose checks found it missing, the
      least of all such; and a check cut short by its caller is neither. */
  lemma VerdictSound(count: nat, steps: seq<Step>)
    requires Runs(Init(count), steps) && AllExited(After(Init(count), steps))
    ensures var s0 := Init(count); var s := After(s0, steps);
      match VerdictOf(s)
      case Healthy =>
        !s.parentDone && forall i: nat | i < count :: FoundPresent(s0, steps, i) && !FoundMissing(s0, steps, i)
      case Missing(i) => i < count && FoundMissing(s0, steps, i) && forall j: nat | FoundMissing(s0, steps, j) :: i <= j
      case CutShort => s.parentDone && forall i: nat :: !FoundMissing(s0, steps, i)
  {
    hide Apply, Enabled, Inv, FoundMissing, FoundPresent;
    var s0 := Init(count);
    var s := After(s0, steps);
    RunKeepsInv(count, steps);
    VerdictFacts(s);
    forall i: nat | FoundMissing(s0, steps, i) ensures i in s.confirmed {
      MissingIsConfirmed(s0, steps, i);
    }
    match VerdictOf(s)
    case Healthy =>
      forall i: nat | i < count ensures FoundPresent(s0, steps, i) {
        ClearedHasReason(s0, steps, i);
      }
    case Missing(i) =>
      ConfirmedHasReason(s0, steps, i);
      ConfirmedInside(s, i);
    case CutShort =>
  }

  lemma ConfirmedInside(s: State, i: nat)
    requires Inv(s) && i in s.confirmed
    ensures i < s.count
  {
    assert ConfirmedGood(s, i);
  }

  // ----- Progress --------------------------------------------------------------------------------------------

  function StepsLeft(p: Place): nat {
    match p
    case AtLoop => 2
    case Claiming => 1
    case Checking(_) => 5
    case Pausing(_) => 4
    case Confirming(_) => 3
    case Recording(_) => 2
    case Cancelling => 1
    case Exited => 0
  }

  function TotalLeft(workers: seq<Place>): nat {
    if workers == [] then 0 else StepsLeft(workers[0]) + TotalLeft(workers[1..])
  }

  lemma {:induction false} TotalMoves(workers: seq<Place>, w: nat, p: Place)
    requires w < |workers|
    ensures TotalLeft(workers[w := p]) + StepsLeft(workers[w]) == TotalLeft(workers) + StepsLeft(p)
  {
    if w > 0 {
      assert workers[w := p][1..] == workers[1..][w - 1 := p];
      TotalMoves(workers[1..], w - 1, p);
    } else {
      assert workers[w := p][1..] == workers[1..];
    }
  }

  /** What the run may still cost: the unclaimed indices, the workers' own steps, the two contexts. */
  function Fuel(s: State): nat {
    6 * (if s.next < s.count then s.count - s.next else 0) + TotalLeft(s.workers)
    + (if s.parentDone then 0 else 1) + (if s.ctxDone then 0 else 1)
  }

  lemma StepSpends(s: State, step: Step)
    requires Enabled(s, step)
    ensures Fuel(Apply(s, step)) < Fuel(s)
  {
    hide TotalLeft;
    if Acts(step) {
      var p := Apply(s, step).workers[step.w];
      assert Apply(s, step).workers == s.workers[step.w := p];
      TotalMoves(s.workers, step.w, p);
    }
  }

  lemma {:induction false} RunLength(s: State, steps: seq<Step>)
    requires Runs(s, steps)
    ensures |steps| + Fuel(After(s, steps)) <= Fuel(s)
    decreases |steps|
  {
    hide Fuel, Enabled, Apply;
    if steps != [] {
      RunLength(s, steps[..|steps| - 1]);
      StepSpends(After(s, steps[..|steps| - 1]), steps[|steps| - 1]);
    }
  }

  lemma SomeStepEnabled(s: State, w: nat)
    requires w < |s.workers| && !s.workers[w].Exited?
    ensures exists step :: Enabled(s, step)
  {
    match s.workers[w]
    case AtLoop => assert Enabled(s, LoopTest(w));
    case Claiming => assert Enabled(s, Claim(w));
    case Checking(_) => assert Enabled(s, CheckReturns(w, false));
    case Pausing(_) => assert Enabled(s, PauseEnds(w, false));
    case Confirming(_) => assert Enabled(s, ConfirmReturns(w, false));
    case Recording(_) => assert Enabled(s, Record(w));
    case Cancelling => assert Enabled(s, Cancel(w));
    case Exited =>
  }

  /** Every interleaving is finite, and one that cannot go on has every worker exited. */
  lemma RunsEnd(count: nat, steps: seq<Step>)
    requires Runs(Init(count), steps)
    ensures |steps| <= 6 * count + 2 * CONCURRENCY + 2
    ensures (forall step :: !Enabled(After(Init(count), steps), step)) ==> AllExited(After(Init(count), steps))
  {
    hide Apply, Runs, After;
    var s0 := Init(count);
    RunLength(s0, steps);
    assert s0.workers == [AtLoop, AtLoop, AtLoop, AtLoop];
    assert s0.workers[1..] == [AtLoop, AtLoop, AtLoop] && s0.workers[1..][1..] == [AtLoop, AtLoop];
    assert TotalLeft(s0.workers[1..][1..][1..]) == 2;
    assert TotalLeft(s0.workers[1..][1..]) == 4;
    assert TotalLeft(s0.workers[1..]) == 6;
    var s := After(s0, steps);
    if w: nat :| w < |s.workers| && !s.workers[w].Exited? {
      SomeStepEnabled(s, w);
    }
  }
}
