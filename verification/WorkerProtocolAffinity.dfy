/**
  What CPU affinity is needed for: exactly which runners never get stuck.

  Extra workers are only unblocked if there is affinity. So a runner can get stuck if it has none, may place runs
  that ask for more than one CPU, and has at least two workers; and only then.
 */
module WorkerProtocolAffinity {
  import opened Wrappers
  import opened WorkerProtocol
  import opened WorkerProtocolInvariant
  import opened WorkerProtocolTheorems
  import opened WorkerProtocolProgress

  // ---- Runs that ask for one CPU

  /** A runner with `n` workers. */
  function Start(n: nat, affinity: bool): State {
    State(affinity, seq(n, _ => NEW_WORKER), Between, 0)
  }

  /** Only if `wide`, placements may ask for more than one CPU. */
  predicate Permitted(wide: bool, steps: seq<Step>) {
    forall i :: 0 <= i < |steps| ==> steps[i].Begin? && !wide ==> steps[i].need <= 1
  }

  /** No run that this worker was given has extra workers. */
  predicate Alone(w: Worker) {
    && (w.command.Some? && w.command.value.Run? ==> w.command.value.extras == [])
    && (w.pc.Waiting? || w.pc.Executing? || w.pc.Releasing? ==> w.pc.extras == [])
  }

  /** No accepted run has extra workers, and none that is being placed will: it asks for one CPU, or there is
      only one. */
  predicate Narrow(s: State) {
    && (forall i :: 0 <= i < |s.ws| ==> Alone(s.ws[i]))
    && (s.ctrl.Placing? ==>
          if |s.ws| <= 1 then |s.ctrl.extras| + |s.ctrl.cands| <= 1 else s.ctrl.need <= 1 && s.ctrl.extras == [])
  }

  /** The same state of a runner with affinity. */
  function Twin(s: State): State {
    s.(affinity := true)
  }

  lemma TwoAreEqual(s: seq<nat>)
    requires |s| > 1 && forall i :: 0 <= i < |s| ==> s[i] < 1
    ensures !Distinct(s)
  {
    assert s[0] == s[1];
  }

  lemma DistinctOfOne(s: seq<nat>)
    requires Distinct(s) && forall i :: 0 <= i < |s| ==> s[i] < 1
    ensures |s| <= 1
  {
    if |s| > 1 {
      TwoAreEqual(s);
    }
  }

  lemma TwinWorkerStep(s: State, step: Step)
    requires Narrow(s) && Enabled(s, step) && IsWorkerStep(step)
    ensures Enabled(Twin(s), step) && Do(Twin(s), step) == Twin(Do(s, step)) && Narrow(Do(s, step))
  {
    assert Alone(s.ws[step.w]);
  }

  /** As long as no run has extra workers, affinity makes no difference. */
  lemma TwinStep(s: State, step: Step)
    requires Narrow(s) && Enabled(s, step)
    requires step.Begin? ==> step.need <= 1 || |s.ws| <= 1
    ensures Enabled(Twin(s), step) && Do(Twin(s), step) == Twin(Do(s, step)) && Narrow(Do(s, step))
  {
    if IsWorkerStep(step) {
      TwinWorkerStep(s, step);
    } else if step.Begin? {
      if |s.ws| <= 1 {
        DistinctOfOne(step.cands);
      }
    }
  }

  lemma {:induction false} TwinRuns(s: State, steps: seq<Step>, wide: bool)
    requires Narrow(s) && CanRun(s, steps) && Permitted(wide, steps) && (!wide || |s.ws| <= 1)
    ensures CanRun(Twin(s), steps) && RunAll(Twin(s), steps) == Twin(RunAll(s, steps)) && Narrow(RunAll(s, steps))
    decreases |steps|
  {
    if steps != [] {
      var t := Do(s, steps[0]);
      TwinStep(s, steps[0]);
      StepKeepsSize(s, steps[0]);
      assert forall i :: 0 <= i < |steps| - 1 ==> steps[1..][i] == steps[i + 1];
      TwinRuns(t, steps[1..], wide);
      RunOne(Twin(s), steps, Twin(t));
      RunOne(s, steps, t);
    }
  }

  lemma StepKeepsSize(s: State, step: Step)
    requires Enabled(s, step)
    ensures |Do(s, step).ws| == |s.ws| && Do(s, step).affinity == s.affinity
  {
  }

  /** A run of one step more. */
  lemma RunOne(s: State, steps: seq<Step>, t: State)
    requires steps != [] && Enabled(s, steps[0]) && Do(s, steps[0]) == t && CanRun(t, steps[1..])
    ensures CanRun(s, steps) && RunAll(s, steps) == RunAll(t, steps[1..])
  {
  }

  // ---- Two workers that hang

  /** Two workers, no affinity: a run waits at worker 1 when a two-CPU run on worker 0 reserves worker 1. */
  const TWO_WORKERS: State := State(false, [NEW_WORKER, NEW_WORKER], Between, 0)

  const PLACE_NARROW: seq<Step> := [Begin(1, [1]), TryAddRun]
  const PLACE_WIDE: seq<Step> := [Begin(2, [1, 0]), TryBlock, TryAddRun]
  const PLACE_BOTH: seq<Step> := PLACE_NARROW + PLACE_WIDE
  const RUN_FIRST: seq<Step> := [Dequeue(0), Acquire(0), Publish(0), ReleaseOwn(0), Dequeue(1)]
  const STOP: seq<Step> := [BeginStop, SendStop, GetResult, Dequeue(0), GetResult, SendStop]

  /** Worker 1 waits for its own lock, which nobody is going to release. */
  const STUCK: State :=
    State(false,
          [Worker(None, [], Free, false, Stopped, [1], [1]),
           Worker(Some(Stop), [], ForRun(1, 0), true, Waiting(0, []), [0], [])],
          Stopping(1, true), 2)

  // The two workers after the placements, after worker 0's run, and in the shutdown.
  const PLACED_0: Worker := NEW_WORKER.(command := Some(Run(1, [1])), accepted := [1])
  const PLACED_1: Worker :=
    NEW_WORKER.(command := Some(Run(0, [])), accepted := [0], lock := ForRun(1, 0), inUse := true)
  const RAN_0: Worker := NEW_WORKER.(results := [Some(1)], accepted := [1])
  const RAN_1: Worker := PLACED_1.(command := None, pc := Waiting(0, []))

  const HALF_PLACED: State :=
    State(false, [NEW_WORKER, NEW_WORKER.(command := Some(Run(0, [])), accepted := [0])], Between, 1)

  lemma OnePlaced()
    ensures CanRun(TWO_WORKERS, PLACE_NARROW) && RunAll(TWO_WORKERS, PLACE_NARROW) == HALF_PLACED
  {
    var none: seq<nat> := [];
    assert none + [0] == [0];
    var s1 := TWO_WORKERS.(ctrl := Placing(1, [], [1]));
    assert Do(TWO_WORKERS, Begin(1, [1])) == s1;
    assert Do(s1, TryAddRun).ws[1] == HALF_PLACED.ws[1] && Do(s1, TryAddRun).ws == HALF_PLACED.ws;
    assert Do(s1, TryAddRun) == HALF_PLACED;
    assert PLACE_NARROW[1..] == [TryAddRun] && [TryAddRun][1..] == [];
    RunOne(s1, [TryAddRun], HALF_PLACED);
    RunOne(TWO_WORKERS, PLACE_NARROW, s1);
  }

  const PLACING := HALF_PLACED.(ctrl := Placing(2, [], [1, 0]))
  const BLOCKED :=
    State(false, [NEW_WORKER, HALF_PLACED.ws[1].(lock := Reserved, inUse := true)], Placing(1, [1], [0]), 1)
  const BOTH_PLACED := State(false, [PLACED_0, PLACED_1], Between, 2)

  lemma ExtraIsBlocked()
    ensures Enabled(PLACING, TryBlock) && Do(PLACING, TryBlock) == BLOCKED
  {
    var none: seq<nat> := [];
    assert none + [1] == [1] && PLACING.ctrl.cands[1..] == [0];
    assert Do(PLACING, TryBlock).ws == BLOCKED.ws;
  }

  lemma HostIsGiven()
    ensures Enabled(BLOCKED, TryAddRun) && Do(BLOCKED, TryAddRun) == BOTH_PLACED
  {
    var none: seq<nat> := [];
    assert none + [1] == [1];
    assert Do(BLOCKED, TryAddRun).ws == BOTH_PLACED.ws;
  }

  lemma WideBegins()
    ensures Enabled(HALF_PLACED, Begin(2, [1, 0])) && Do(HALF_PLACED, Begin(2, [1, 0])) == PLACING
  {
  }

  lemma OtherPlaced()
    ensures CanRun(HALF_PLACED, PLACE_WIDE) && RunAll(HALF_PLACED, PLACE_WIDE) == BOTH_PLACED
  {
    WideBegins();
    ExtraIsBlocked();
    HostIsGiven();
    ThreeSteps(HALF_PLACED, PLACE_WIDE, PLACING, BLOCKED, BOTH_PLACED);
  }

  lemma ThreeSteps(s: State, steps: seq<Step>, s1: State, s2: State, s3: State)
    requires |steps| == 3
    requires Enabled(s, steps[0]) && Do(s, steps[0]) == s1 && Enabled(s1, steps[1]) && Do(s1, steps[1]) == s2
    requires Enabled(s2, steps[2]) && Do(s2, steps[2]) == s3
    ensures CanRun(s, steps) && RunAll(s, steps) == s3
  {
    assert steps[1..][1..] == steps[2..] && steps[2..][1..] == [];
    RunOne(s2, steps[2..], s3);
    RunOne(s1, steps[1..], s2);
    RunOne(s, steps, s1);
  }

  lemma BothPlaced()
    ensures CanRun(TWO_WORKERS, PLACE_BOTH) && RunAll(TWO_WORKERS, PLACE_BOTH) == BOTH_PLACED
  {
    OnePlaced();
    OtherPlaced();
    RunAppend(TWO_WORKERS, PLACE_NARROW, PLACE_WIDE);
  }

  lemma FirstRan()
    ensures CanRun(BOTH_PLACED, RUN_FIRST) && RunAll(BOTH_PLACED, RUN_FIRST) == RUNS_DONE
  {
    var s0 := BOTH_PLACED;
    var w1 := PLACED_0.(command := None, pc := Waiting(1, [1]));
    var w2 := w1.(lock := Own, pc := Executing(1, [1]));
    var w3 := w2.(results := [Some(1)], pc := Releasing(1, [1], 1, false));
    var s1 := s0.(ws := [w1, PLACED_1]);
    var s2 := s0.(ws := [w2, PLACED_1]);
    var s3 := s0.(ws := [w3, PLACED_1]);
    var s4 := s0.(ws := [RAN_0, PLACED_1]);
    var s5 := s0.(ws := [RAN_0, RAN_1]);
    var none: seq<Option<nat>> := [];
    assert none + [Some(1)] == [Some(1)];
    assert Do(s0, Dequeue(0)) == s1;
    assert Do(s1, Acquire(0)) == s2;
    assert Do(s2, Publish(0)).ws == s3.ws;
    assert Do(s2, Publish(0)) == s3;
    assert Do(s3, ReleaseOwn(0)) == s4;
    assert Do(s4, Dequeue(1)) == s5;
    FiveSteps(s0, RUN_FIRST, s1, s2, s3, s4, s5);
  }

  const RUNS_DONE := State(false, [RAN_0, RAN_1], Between, 2)
  const TOLD_0 := RAN_0.(command := Some(Stop))
  const TAKEN_0 := TOLD_0.(results := [], collected := [1])
  const MARKED_0 := TAKEN_0.(command := None, pc := Stopped, results := [None])
  const ASKED := State(false, [TOLD_0, RAN_1], Stopping(0, true), 2)
  const TAKEN := State(false, [TAKEN_0, RAN_1], Stopping(0, true), 2)
  const MARKED := State(false, [MARKED_0, RAN_1], Stopping(0, true), 2)
  const FIRST_GONE := State(false, [MARKED_0.(results := []), RAN_1], Stopping(1, false), 2)

  lemma FirstIsAsked()
    ensures Enabled(RUNS_DONE, BeginStop) && Do(RUNS_DONE, BeginStop) == RUNS_DONE.(ctrl := Stopping(0, false))
    ensures Enabled(RUNS_DONE.(ctrl := Stopping(0, false)), SendStop)
    ensures Do(RUNS_DONE.(ctrl := Stopping(0, false)), SendStop) == ASKED
    ensures Enabled(ASKED, GetResult) && Do(ASKED, GetResult) == TAKEN
  {
    var none: seq<nat> := [];
    assert none + [1] == [1];
    assert RAN_0.results[1..] == [];
    assert Do(ASKED, GetResult).ws == TAKEN.ws;
  }

  lemma FirstIsGone()
    ensures Enabled(TAKEN, Dequeue(0)) && Do(TAKEN, Dequeue(0)) == MARKED
    ensures Enabled(MARKED, GetResult) && Do(MARKED, GetResult) == FIRST_GONE
    ensures Enabled(FIRST_GONE, SendStop) && Do(FIRST_GONE, SendStop) == STUCK
  {
    var none: seq<Option<nat>> := [];
    assert none + [None] == [None] && [None][1..] == none;
    assert Do(TAKEN, Dequeue(0)).ws == MARKED.ws && Do(MARKED, GetResult).ws == FIRST_GONE.ws;
  }

  lemma StopHangs()
    ensures CanRun(RUNS_DONE, STOP) && RunAll(RUNS_DONE, STOP) == STUCK
  {
    FirstIsAsked();
    FirstIsGone();
    FiveSteps(RUNS_DONE.(ctrl := Stopping(0, false)), STOP[1..], ASKED, TAKEN, MARKED, FIRST_GONE, STUCK);
    RunOne(RUNS_DONE, STOP, RUNS_DONE.(ctrl := Stopping(0, false)));
  }

  lemma FiveSteps(s: State, steps: seq<Step>, s1: State, s2: State, s3: State, s4: State, s5: State)
    requires |steps| == 5
    requires Enabled(s, steps[0]) && Do(s, steps[0]) == s1 && Enabled(s1, steps[1]) && Do(s1, steps[1]) == s2
    requires Enabled(s2, steps[2]) && Do(s2, steps[2]) == s3 && Enabled(s3, steps[3]) && Do(s3, steps[3]) == s4
    requires Enabled(s4, steps[4]) && Do(s4, steps[4]) == s5
    ensures CanRun(s, steps) && RunAll(s, steps) == s5
  {
    assert steps[1..][1..] == steps[2..] && steps[2..][1..] == steps[3..] && steps[3..][1..] == steps[4..];
    assert steps[4..][1..] == [];
    RunOne(s4, steps[4..], s5);
    RunOne(s3, steps[3..], s4);
    RunOne(s2, steps[2..], s3);
    RunOne(s1, steps[1..], s2);
    RunOne(s, steps, s1);
  }


  // ---- More workers

  /** The same runner with further workers. */
  function Extended(s: State, rest: seq<Worker>): State {
    s.(ws := s.ws + rest)
  }

  predicate ReservesInRange(s: State) {
    s.ctrl.Placing? ==> forall i :: 0 <= i < |s.ctrl.extras| ==> s.ctrl.extras[i] < |s.ws|
  }

  lemma HandedExtended(ws: seq<Worker>, rest: seq<Worker>, extras: seq<nat>, id: nat, host: nat)
    requires forall i :: 0 <= i < |extras| ==> extras[i] < |ws|
    ensures Handed(ws + rest, extras, id, host) == Handed(ws, extras, id, host) + rest
  {
    forall i | 0 <= i < |ws| + |rest|
      ensures Handed(ws + rest, extras, id, host)[i] == (Handed(ws, extras, id, host) + rest)[i]
    {
      if i >= |ws| {
        assert i !in extras;
      }
    }
  }

  lemma SetExtended(ws: seq<Worker>, rest: seq<Worker>, w: nat, worker: Worker)
    requires w < |ws|
    ensures (ws + rest)[w := worker] == ws[w := worker] + rest
  {
  }

  lemma ExtendedWorkerStep(s: State, rest: seq<Worker>, step: Step)
    requires Enabled(s, step) && IsWorkerStep(step)
    ensures Enabled(Extended(s, rest), step) && Do(Extended(s, rest), step) == Extended(Do(s, step), rest)
    ensures Do(s, step).ctrl == s.ctrl && |Do(s, step).ws| == |s.ws|
  {
    var t := Do(s, step);
    if step.ClearFlag? || step.ReleaseExtra? {
      var e := s.ws[step.w].pc.extras[s.ws[step.w].pc.done];
      var mid := if step.ClearFlag? then s.ws[e].(inUse := false) else s.ws[e].(lock := Free);
      SetExtended(s.ws, rest, e, mid);
      SetExtended(s.ws[e := mid], rest, step.w, t.ws[step.w]);
    } else {
      SetExtended(s.ws, rest, step.w, t.ws[step.w]);
    }
    assert Do(Extended(s, rest), step).ws == t.ws + rest;
  }

  lemma ExtendedPlacement(s: State, rest: seq<Worker>)
    requires Enabled(s, TryAddRun) && ReservesInRange(s)
    ensures Enabled(Extended(s, rest), TryAddRun)
    ensures Do(Extended(s, rest), TryAddRun) == Extended(Do(s, TryAddRun), rest)
  {
    var c := s.ctrl.cands[0];
    if !s.ws[c].inUse && s.ws[c].command.None? {
      HandedExtended(s.ws, rest, s.ctrl.extras, s.nextId, c);
      SetExtended(Handed(s.ws, s.ctrl.extras, s.nextId, c), rest, c, Do(s, TryAddRun).ws[c]);
    }
  }

  /** Further workers make no difference to the steps that do not concern them. */
  lemma ExtendedStep(s: State, rest: seq<Worker>, step: Step)
    requires Enabled(s, step) && !step.EndStop? && ReservesInRange(s)
    ensures Enabled(Extended(s, rest), step) && Do(Extended(s, rest), step) == Extended(Do(s, step), rest)
    ensures ReservesInRange(Do(s, step))
  {
    if IsWorkerStep(step) {
      ExtendedWorkerStep(s, rest, step);
    } else if step.TryAddRun? {
      ExtendedPlacement(s, rest);
    } else {
      assert Do(Extended(s, rest), step).ws == Do(s, step).ws + rest;
    }
  }

  lemma {:induction false} ExtendedRun(s: State, rest: seq<Worker>, steps: seq<Step>)
    requires CanRun(s, steps) && EndStop !in steps && ReservesInRange(s)
    ensures CanRun(Extended(s, rest), steps) && RunAll(Extended(s, rest), steps) == Extended(RunAll(s, steps), rest)
    decreases |steps|
  {
    if steps != [] {
      ExtendedStep(s, rest, steps[0]);
      assert steps == [steps[0]] + steps[1..];
      ExtendedRun(Do(s, steps[0]), rest, steps[1..]);
    }
  }

  const HANG: seq<Step> := PLACE_BOTH + RUN_FIRST + STOP

  lemma TwoWorkersHang()
    ensures CanRun(TWO_WORKERS, HANG)
    ensures RunAll(TWO_WORKERS, HANG) == STUCK
  {
    assert RunAll(TWO_WORKERS, PLACE_BOTH + RUN_FIRST) == RUNS_DONE && CanRun(TWO_WORKERS, PLACE_BOTH + RUN_FIRST) by {
      BothPlaced();
      FirstRan();
      RunAppend(TWO_WORKERS, PLACE_BOTH, RUN_FIRST);
    }
    StopHangs();
    RunAppend(TWO_WORKERS, PLACE_BOTH + RUN_FIRST, STOP);
  }

  lemma NothingEnabled(rest: seq<Worker>)
    requires forall i :: 0 <= i < |rest| ==> rest[i] == NEW_WORKER
    ensures forall step :: !Enabled(Extended(STUCK, rest), step)
  {
    var t := Extended(STUCK, rest);
    forall i: nat | 2 <= i < |t.ws| ensures t.ws[i] == NEW_WORKER {
      assert t.ws[i] == rest[i - 2];
    }
    assert t.ws[0] == STUCK.ws[0] && t.ws[1] == STUCK.ws[1];
  }

  /** With at least two workers and no affinity, one placement that asks for two CPUs is enough for the shutdown to
      hang: the extra worker is never unblocked. */
  lemma DeadlockWithoutAffinity(n: nat) returns (t: State)
    requires n >= 2
    ensures CanRun(Start(n, false), HANG) && t == RunAll(Start(n, false), HANG)
    ensures t.ctrl.Stopping? && forall step :: !Enabled(t, step)
  {
    var rest := seq(n - 2, _ => NEW_WORKER);
    TwoWorkersHang();
    assert Start(n, false).ws == TWO_WORKERS.ws + rest;
    assert Start(n, false) == Extended(TWO_WORKERS, rest);
    ExtendedRun(TWO_WORKERS, rest, HANG);
    NothingEnabled(rest);
    t := Extended(STUCK, rest);
  }

  // ---- Exactly when

  /** A run of such a runner from its start. */
  ghost predicate Reaches(n: nat, affinity: bool, wide: bool, t: State) {
    exists steps :: CanRun(Start(n, affinity), steps) && Permitted(wide, steps) && RunAll(Start(n, affinity), steps) == t
  }

  /** Something other than new work can always happen until the runner is finished. */
  ghost predicate NeverStuck(n: nat, affinity: bool, wide: bool) {
    forall t :: Reaches(n, affinity, wide, t) && !t.ctrl.Finished? ==> CanGoOn(t)
  }

  ghost predicate CanGoOn(t: State) {
    exists step :: Enabled(t, step) && !step.Begin?
  }

  /** A run that can go no further is over, with every worker stopped and all its results collected. */
  ghost predicate EndsDrained(n: nat, affinity: bool, wide: bool) {
    forall t :: Reaches(n, affinity, wide, t) && (forall step :: !Enabled(t, step)) ==> IsDrained(t)
  }

  predicate IsDrained(t: State) {
    t.ctrl.Finished? && forall w :: 0 <= w < |t.ws| ==> t.ws[w].pc.Stopped? && t.ws[w].collected == t.ws[w].accepted
  }

  /** What such a runner reaches, a runner with affinity reaches too. */
  lemma TwinIsReachable(n: nat, affinity: bool, wide: bool, t: State)
    requires Reaches(n, affinity, wide, t) && (affinity || !wide || n <= 1)
    ensures Reachable(Twin(t)) && (!affinity ==> Narrow(t)) && |t.ws| == n && t.affinity == affinity
  {
    var steps :| CanRun(Start(n, affinity), steps) && Permitted(wide, steps) && RunAll(Start(n, affinity), steps) == t;
    RunsKeepSize(Start(n, affinity), steps);
    assert Init(Start(n, true));
    if affinity {
      assert Twin(t) == t;
    } else {
      TwinRuns(Start(n, false), steps, wide);
      assert Twin(Start(n, false)) == Start(n, true);
    }
  }

  lemma {:induction false} RunsKeepSize(s: State, steps: seq<Step>)
    requires CanRun(s, steps)
    ensures |RunAll(s, steps).ws| == |s.ws| && RunAll(s, steps).affinity == s.affinity
    decreases |steps|
  {
    if steps != [] {
      StepKeepsSize(s, steps[0]);
      RunsKeepSize(Do(s, steps[0]), steps[1..]);
      RunOne(s, steps, Do(s, steps[0]));
    }
  }

  lemma EnabledTwin(t: State, step: Step)
    ensures Enabled(t, step) <==> Enabled(Twin(t), step)
  {
  }

  lemma NeverStuckThen(n: nat, affinity: bool, wide: bool, t: State)
    requires Reaches(n, affinity, wide, t) && (affinity || !wide || n <= 1)
    ensures !t.ctrl.Finished? ==> CanGoOn(t)
    ensures t.ctrl.Finished? ==> IsDrained(t)
  {
    TwinIsReachable(n, affinity, wide, t);
    if t.ctrl.Finished? {
      forall w: nat | w < |t.ws| ensures t.ws[w].pc.Stopped? && t.ws[w].collected == t.ws[w].accepted {
        StoppedWorkersAreDrained(Twin(t), w);
      }
    } else {
      NoDeadlock(Twin(t));
      var step :| Enabled(Twin(t), step) && !step.Begin?;
      EnabledTwin(t, step);
    }
  }

  lemma HangIsPermitted()
    ensures Permitted(true, HANG)
  {
  }

  /** A runner never gets stuck, and its shutdown always completes, if and only if it has affinity, or places only
      runs that ask for one CPU, or has at most one worker. */
  lemma NeverStuckIff(n: nat, affinity: bool, wide: bool)
    ensures NeverStuck(n, affinity, wide) <==> affinity || !wide || n <= 1
    ensures EndsDrained(n, affinity, wide) <==> affinity || !wide || n <= 1
  {
    if affinity || !wide || n <= 1 {
      forall t | Reaches(n, affinity, wide, t)
        ensures !t.ctrl.Finished? ==> CanGoOn(t)
        ensures (forall step :: !Enabled(t, step)) ==> IsDrained(t)
      {
        NeverStuckThen(n, affinity, wide, t);
      }
    } else {
      var t := DeadlockWithoutAffinity(n);
      HangIsPermitted();
      assert Reaches(n, affinity, wide, t);
      assert !CanGoOn(t) && !IsDrained(t);
    }
  }
}
