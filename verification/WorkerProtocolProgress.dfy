/**
  Progress of the worker protocol: it never deadlocks, and its shutdown comes to an end with every result
  collected. Both rest on the runs being bound to CPUs; `WorkerProtocolAffinity` says what happens otherwise.
 */
module WorkerProtocolProgress {
  import opened Wrappers
  import opened WorkerProtocol
  import opened WorkerProtocolInvariant
  import opened WorkerProtocolTheorems

  // ---- No deadlock

  /** The run was accepted by this worker and is not over. */
  predicate Unfinished(s: State, h: nat, id: nat) {
    h < |s.ws| && (QueuedId(s.ws[h]) == Some(id) || CurrentId(s.ws[h]) == Some(id))
  }

  ghost predicate SomeWorkerCanStep(s: State) {
    exists step :: IsWorkerStep(step) && Enabled(s, step)
  }

  lemma CanStep(s: State, step: Step)
    requires IsWorkerStep(step) && Enabled(s, step)
    ensures SomeWorkerCanStep(s)
  {
  }

  lemma BusyCanStep(s: State, w: nat)
    requires Inv(s) && w < |s.ws| && (s.ws[w].pc.Executing? || s.ws[w].pc.Releasing?)
    ensures SomeWorkerCanStep(s)
  {
    ExtrasAreLocked(s, w);
    var pc := s.ws[w].pc;
    if pc.Executing? {
      CanStep(s, Publish(w));
    } else if pc.done == |pc.extras| {
      CanStep(s, ReleaseOwn(w));
    } else if pc.cleared {
      CanStep(s, ReleaseExtra(w));
    } else {
      CanStep(s, ClearFlag(w));
    }
  }

  /** Following the chain of waiting runs. A run waits for the lock of its host; the lock is held for a run
      that was accepted after everything that is pending there, so the chain only ever leads to later runs. */
  lemma {:induction false} ChainEnds(s: State, h: nat, id: nat)
    requires Inv(s) && CtrlExtras(s.ctrl) == [] && Unfinished(s, h, id)
    ensures SomeWorkerCanStep(s)
    decreases s.nextId - id
  {
    var w := s.ws[h];
    Local(s, h);
    AcceptedBelow(|s.ws|, s.nextId, h, w, StageOf(s.ctrl, h));
    assert LockOk(s, h);
    if w.pc.Executing? || w.pc.Releasing? {
      BusyCanStep(s, h);
    } else if w.pc.Idle? {
      CanStep(s, Dequeue(h));
    } else if w.lock.Free? {
      CanStep(s, Acquire(h));
    } else {
      var id', h' := w.lock.id, w.lock.host;
      if w.inUse {
        AcceptedHolds(w);
        ChainEnds(s, h', id');
      } else {
        BusyCanStep(s, h');
      }
    }
  }

  /** Unless the controller is in the middle of a placement, some worker can go on as long as any accepted
      run is unfinished. */
  lemma UnfinishedRunsProgress(s: State, h: nat, id: nat)
    requires Reachable(s) && Unfinished(s, h, id) && !s.ctrl.Placing? && !s.ctrl.Unwinding?
    ensures SomeWorkerCanStep(s)
  {
    ReachableInv(s);
    ChainEnds(s, h, id);
  }

  lemma ShutdownProgress(s: State)
    requires Inv(s) && s.ctrl.Stopping? && s.ctrl.worker < |s.ws|
    ensures exists step :: Enabled(s, step) && !step.Begin?
  {
    var i := s.ctrl.worker;
    var w := s.ws[i];
    Local(s, i);
    if CurrentId(w).Some? {
      ChainEnds(s, i, CurrentId(w).value);
    } else if QueuedId(w).Some? {
      ChainEnds(s, i, QueuedId(w).value);
    } else if !s.ctrl.sent {
      assert Enabled(s, SendStop);
    } else if w.results != [] {
      assert Enabled(s, GetResult);
    } else {
      assert Enabled(s, Dequeue(i));
    }
  }

  /** A runner that is not finished is never stuck, and does not depend on new work to go on. */
  lemma NoDeadlock(s: State)
    requires Reachable(s) && !s.ctrl.Finished?
    ensures exists step :: Enabled(s, step) && !step.Begin?
  {
    ReachableInv(s);
    match s.ctrl
    case Between => assert Enabled(s, BeginStop);
    case Placing(need, extras, cands) =>
      if cands == [] {
        assert Enabled(s, GiveUp);
      } else if need > 1 {
        assert Enabled(s, TryBlock);
      } else {
        assert Enabled(s, TryAddRun);
      }
    case Unwinding(extras, done, cleared) =>
      if done == |extras| {
        assert Enabled(s, EndUnwind);
      } else {
        assert CtrlExtras(s.ctrl)[0] == extras[done];
        if cleared { assert Enabled(s, UnwindLock); } else { assert Enabled(s, UnwindFlag); }
      }
    case Stopping(worker, sent) =>
      if worker < |s.ws| {
        ShutdownProgress(s);
      } else {
        assert Enabled(s, EndStop);
      }
  }

  // ---- Termination

  /** The steps still due for what is at a worker. */
  function Work(w: Worker): nat {
    |w.results|
    + (if w.command.None? then 0 else if w.command.value.Stop? then 2 else 5 + 2 * |w.command.value.extras|)
    + match w.pc
      case Idle => 0
      case Stopped => 0
      case Waiting(_, extras) => 4 + 2 * |extras|
      case Executing(_, extras) => 3 + 2 * |extras|
      case Releasing(_, extras, done, cleared) =>
        if done < |extras| then 1 + 2 * (|extras| - done) - (if cleared then 1 else 0) else 1
  }

  function TotalWork(ws: seq<Worker>): nat {
    if ws == [] then 0 else Work(ws[0]) + TotalWork(ws[1..])
  }

  function CtrlWork(n: nat, ctrl: Ctrl): nat {
    match ctrl
    case Finished => 0
    case Stopping(worker, sent) => if worker <= n then 4 * (n - worker) + (if sent then 1 else 4) else 0
    case Between => 4 * n + 5
    case Unwinding(extras, done, cleared) =>
      4 * n + 7 + (if done < |extras| then 2 * (|extras| - done) - (if cleared then 1 else 0) else 0)
    case Placing(_, extras, cands) => 4 * n + 9 + 3 * |cands| + 2 * |extras|
  }

  /** An upper bound on the number of steps that can be taken without beginning a placement. */
  function Measure(s: State): nat {
    TotalWork(s.ws) + CtrlWork(|s.ws|, s.ctrl)
  }

  lemma {:induction false} TotalWorkUpdate(ws: seq<Worker>, i: nat, w: Worker)
    requires i < |ws|
    ensures TotalWork(ws[i := w]) == TotalWork(ws) - Work(ws[i]) + Work(w)
    decreases |ws|
  {
    if i > 0 {
      assert ws[i := w][1..] == ws[1..][i - 1 := w];
      TotalWorkUpdate(ws[1..], i - 1, w);
    } else {
      assert ws[0 := w][1..] == ws[1..];
    }
  }

  lemma {:induction false} TotalWorkSame(ws: seq<Worker>, ws': seq<Worker>)
    requires |ws| == |ws'| && forall i :: 0 <= i < |ws| ==> Work(ws[i]) == Work(ws'[i])
    ensures TotalWork(ws) == TotalWork(ws')
    decreases |ws|
  {
    if ws != [] {
      assert forall i :: 0 <= i < |ws[1..]| ==> ws[1..][i] == ws[i + 1] && ws'[1..][i] == ws'[i + 1];
      TotalWorkSame(ws[1..], ws'[1..]);
    }
  }

  /** The work at the worker that takes a step. */
  lemma StepsShrinkWork(s: State, step: Step)
    requires s.affinity && Enabled(s, step) && IsWorkerStep(step) && Tidy(s.ws[step.w])
    requires step.ClearFlag? || step.ReleaseExtra? ==> NextExtra(s.ws[step.w]) != step.w
    ensures Work(Do(s, step).ws[step.w]) < Work(s.ws[step.w])
  {
    var w, w' := s.ws[step.w], Do(s, step).ws[step.w];
    if step.ClearFlag? {
      assert w' == w.(pc := w.pc.(cleared := true));
    } else if step.ReleaseExtra? {
      assert w' == w.(pc := w.pc.(done := w.pc.done + 1, cleared := false));
    }
  }

  /** The extra worker that is being unblocked has as much work as before. */
  lemma UnblockingIsNoWork(s: State, step: Step)
    requires Enabled(s, step) && (step.ClearFlag? || step.ReleaseExtra?)
    requires NextExtra(s.ws[step.w]) != step.w
    ensures var e, t := NextExtra(s.ws[step.w]), Do(s, step);
            && Work(t.ws[e]) == Work(s.ws[e])
            && t.ws == s.ws[e := t.ws[e]][step.w := t.ws[step.w]]
  {
  }

  /** A worker's step takes work off the total. */
  lemma WorkerStepDecreases(s: State, step: Step)
    requires s.affinity && Enabled(s, step) && IsWorkerStep(step) && Tidy(s.ws[step.w])
    requires step.ClearFlag? || step.ReleaseExtra? ==> NextExtra(s.ws[step.w]) != step.w
    ensures Measure(Do(s, step)) < Measure(s)
  {
    var w := step.w;
    var t := Do(s, step);
    StepsShrinkWork(s, step);
    if step.ClearFlag? || step.ReleaseExtra? {
      var e := NextExtra(s.ws[w]);
      UnblockingIsNoWork(s, step);
      TotalWorkUpdate(s.ws, e, t.ws[e]);
      TotalWorkUpdate(s.ws[e := t.ws[e]], w, t.ws[w]);
    } else {
      assert t.ws == s.ws[w := t.ws[w]];
      TotalWorkUpdate(s.ws, w, t.ws[w]);
    }
  }

  /** So does a placement that succeeds: the locks that change hands are no work. */
  lemma PlacementDecreases(s: State)
    requires Enabled(s, TryAddRun)
    ensures Measure(Do(s, TryAddRun)) < Measure(s)
  {
    var c := s.ctrl.cands[0];
    if !s.ws[c].inUse && s.ws[c].command.None? {
      var t := Do(s, TryAddRun);
      var mid := Handed(s.ws, s.ctrl.extras, s.nextId, c);
      forall i | 0 <= i < |s.ws| ensures Work(s.ws[i]) == Work(mid[i]) {
      }
      assert t.ws == mid[c := t.ws[c]];
      assert Work(t.ws[c]) == Work(s.ws[c]) + 5 + 2 * |s.ctrl.extras|;
      TotalWorkSame(s.ws, mid);
      TotalWorkUpdate(mid, c, t.ws[c]);
    }
  }

  /** The worker that a step of the controller looks at. */
  function Subject(s: State, step: Step): nat
    requires Enabled(s, step)
    requires step.TryBlock? || step.UnwindFlag? || step.UnwindLock? || step.Collect? || step.GetResult?
  {
    if step.TryBlock? then s.ctrl.cands[0]
    else if step.Collect? then step.w
    else if step.GetResult? then s.ctrl.worker
    else s.ctrl.extras[s.ctrl.done]
  }

  /** The other steps of the controller change one worker or none. */
  lemma PlacingStepDecreases(s: State, step: Step)
    requires CtrlOk(|s.ws|, s.ctrl) && Enabled(s, step) && (step.TryBlock? || step.UnwindFlag? || step.UnwindLock?)
    ensures Measure(Do(s, step)) < Measure(s)
  {
    var i := Subject(s, step);
    var t := Do(s, step);
    assert t.ws == s.ws[i := t.ws[i]] && Work(t.ws[i]) == Work(s.ws[i]);
    TotalWorkUpdate(s.ws, i, t.ws[i]);
  }

  lemma SendStopDecreases(s: State)
    requires Enabled(s, SendStop)
    ensures Measure(Do(s, SendStop)) < Measure(s)
  {
    TotalWorkUpdate(s.ws, s.ctrl.worker, s.ws[s.ctrl.worker].(command := Some(Stop)));
  }

  lemma TakingShrinks(s: State, step: Step)
    requires Enabled(s, step) && (step.Collect? || step.GetResult?)
    ensures var i, t := Subject(s, step), Do(s, step);
            && i < |s.ws| == |t.ws| && t.ws == s.ws[i := t.ws[i]] && Work(t.ws[i]) + 1 == Work(s.ws[i])
            && CtrlWork(|t.ws|, t.ctrl) <= CtrlWork(|s.ws|, s.ctrl) && t.nextId == s.nextId
  {
    var i, t := Subject(s, step), Do(s, step);
    assert t.ws[i].results == s.ws[i].results[1..];
  }

  lemma TakingDecreases(s: State, step: Step)
    requires Enabled(s, step) && (step.Collect? || step.GetResult?)
    ensures Measure(Do(s, step)) < Measure(s)
  {
    TakingShrinks(s, step);
    TotalWorkUpdate(s.ws, Subject(s, step), Do(s, step).ws[Subject(s, step)]);
  }

  lemma IdleCtrlStepDecreases(s: State, step: Step)
    requires CtrlOk(|s.ws|, s.ctrl) && Enabled(s, step)
    requires step.GiveUp? || step.EndUnwind? || step.BeginStop? || step.EndStop?
    ensures Measure(Do(s, step)) < Measure(s)
  {
  }

  /** Every step but the beginning of a placement brings the system closer to rest. */
  lemma StepDecreases(s: State, step: Step)
    requires Inv(s) && Enabled(s, step) && !step.Begin?
    ensures Measure(Do(s, step)) < Measure(s)
  {
    if IsWorkerStep(step) {
      ExtrasAreLocked(s, step.w);
      WorkerStepDecreases(s, step);
    } else if step.TryAddRun? {
      PlacementDecreases(s);
    } else if step.GiveUp? || step.EndUnwind? || step.BeginStop? || step.EndStop? {
      IdleCtrlStepDecreases(s, step);
    } else if step.TryBlock? || step.UnwindFlag? || step.UnwindLock? {
      PlacingStepDecreases(s, step);
    } else if step.SendStop? {
      SendStopDecreases(s);
    } else {
      TakingDecreases(s, step);
    }
  }

  /** A shutdown that has begun is finite, however its steps interleave: it takes at most as many steps as
      the measure says. */
  lemma {:induction false} ShutdownIsFinite(s: State, steps: seq<Step>)
    requires Inv(s) && (s.ctrl.Stopping? || s.ctrl.Finished?) && CanRun(s, steps)
    ensures |steps| <= Measure(s) && (RunAll(s, steps).ctrl.Stopping? || RunAll(s, steps).ctrl.Finished?)
    decreases |steps|
  {
    if steps != [] {
      StepKeepsInv(s, steps[0]);
      StepDecreases(s, steps[0]);
      ShutdownIsFinite(Do(s, steps[0]), steps[1..]);
    }
  }

  /** And when it cannot go on, it is complete: every worker has stopped and every run that was ever
      accepted has been executed and collected. */
  lemma ShutdownCompletes(s: State, steps: seq<Step>)
    requires Reachable(s) && s.ctrl.Stopping? && CanRun(s, steps)
    requires forall step :: !Enabled(RunAll(s, steps), step)
    ensures var t := RunAll(s, steps);
            t.ctrl.Finished? && forall w :: 0 <= w < |t.ws| ==> t.ws[w].pc.Stopped? && t.ws[w].collected == t.ws[w].accepted
  {
    ReachableRuns(s, steps);
    var t := RunAll(s, steps);
    if !t.ctrl.Finished? {
      NoDeadlock(t);
    }
    forall w: nat | w < |t.ws| ensures t.ws[w].pc.Stopped? && t.ws[w].collected == t.ws[w].accepted {
      StoppedWorkersAreDrained(t, w);
    }
  }

  lemma {:induction false} RunAppend(s: State, a: seq<Step>, b: seq<Step>)
    requires CanRun(s, a) && CanRun(RunAll(s, a), b)
    ensures CanRun(s, a + b) && RunAll(s, a + b) == RunAll(RunAll(s, a), b)
    decreases |a|
  {
    if a == [] {
      assert a + b == b;
    } else {
      assert (a + b)[1..] == a[1..] + b;
      RunAppend(Do(s, a[0]), a[1..], b);
    }
  }

  lemma ReachableRuns(s: State, steps: seq<Step>)
    requires Reachable(s) && CanRun(s, steps)
    ensures Reachable(RunAll(s, steps))
  {
    var s0, before :| Init(s0) && s0.affinity && CanRun(s0, before) && RunAll(s0, before) == s;
    RunAppend(s0, before, steps);
  }
}
