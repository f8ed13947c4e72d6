/**
  What the worker protocol guarantees over whole runs: every step keeps the invariant, runs that execute
  at the same time are on different CPUs, reservations are accounted for, no result is lost, nothing ever
  deadlocks, and the shutdown comes to an end.
 */
module WorkerProtocolTheorems {
  import opened Wrappers
  import opened WorkerProtocol
  import opened WorkerProtocolInvariant

  // ---- Every step keeps the invariant

  /** The local part of the invariant for one worker. */
  lemma Local(s: State, i: nat)
    requires LocalsOk(s) && i < |s.ws|
    ensures LocalOk(|s.ws|, s.nextId, i, s.ws[i], StageOf(s.ctrl, i))
  {
  }

  lemma AllTidy(s: State)
    requires LocalsOk(s)
    ensures forall i :: 0 <= i < |s.ws| ==> Tidy(s.ws[i])
  {
    forall i | 0 <= i < |s.ws| ensures Tidy(s.ws[i]) {
      Local(s, i);
    }
  }

  /** The steps after which one worker holds and waits for what it did before. */
  lemma QueueKeeps(s: State, t: State, w: nat)
    requires Inv(s) && w < |s.ws| && |t.ws| == |s.ws|
    requires t == s.(ws := s.ws[w := t.ws[w]], ctrl := t.ctrl)
    requires CtrlOk(|t.ws|, t.ctrl) && CtrlExtras(t.ctrl) == CtrlExtras(s.ctrl)
    requires (s.ctrl.Unwinding? && s.ctrl.cleared) == (t.ctrl.Unwinding? && t.ctrl.cleared)
    requires SameView(s.ws[w], t.ws[w]) && SameWindow(s.ws[w], t.ws[w]) && t.ws[w].accepted == s.ws[w].accepted
    requires LocalOk(|t.ws|, t.nextId, w, t.ws[w], StageOf(t.ctrl, w))
    requires forall i :: 0 <= i < |s.ws| && i != w ==> StageOf(t.ctrl, i) == StageOf(s.ctrl, i)
    ensures Inv(t)
  {
    LocalsFrame(s, t, w);
    IdsFrame(s, t);
    AllTidy(s);
    AllTidy(t);
    LocksFrame(s, t);
  }

  lemma DequeueStopKeeps(s: State, w: nat)
    requires Inv(s) && Enabled(s, Dequeue(w)) && s.ws[w].command.value.Stop?
    ensures Inv(Do(s, Dequeue(w)))
  {
    var t := Do(s, Dequeue(w));
    Local(s, w);
    DequeueLocal(|s.ws|, s.nextId, w, s.ws[w], StageOf(s.ctrl, w));
    QueueKeeps(s, t, w);
  }

  lemma DequeueRunKeeps(s: State, w: nat)
    requires Inv(s) && Enabled(s, Dequeue(w)) && s.ws[w].command.value.Run?
    ensures Inv(Do(s, Dequeue(w)))
  {
    var t := Do(s, Dequeue(w));
    assert LocalOk(|t.ws|, t.nextId, w, t.ws[w], StageOf(t.ctrl, w)) by {
      Local(s, w);
      DequeueLocal(|s.ws|, s.nextId, w, s.ws[w], StageOf(s.ctrl, w));
    }
    LocalsFrame(s, t, w);
    IdsFrame(s, t);
    DequeueLocks(s, w);
  }

  lemma AcquireKeeps(s: State, w: nat)
    requires Inv(s) && Enabled(s, Acquire(w))
    ensures Inv(Do(s, Acquire(w)))
  {
    var t := Do(s, Acquire(w));
    Local(s, w);
    LocalsFrame(s, t, w);
    IdsFrame(s, t);
    AcquireLocks(s, w);
  }

  lemma PublishKeeps(s: State, w: nat)
    requires Inv(s) && Enabled(s, Publish(w))
    ensures Inv(Do(s, Publish(w)))
  {
    var t := Do(s, Publish(w));
    assert LocalOk(|t.ws|, t.nextId, w, t.ws[w], StageOf(t.ctrl, w)) by {
      Local(s, w);
      PublishLocal(|s.ws|, s.nextId, w, s.ws[w], StageOf(s.ctrl, w));
    }
    assert CurrentExtras(t.ws[w]) == CurrentExtras(s.ws[w]);
    QueueKeeps(s, t, w);
  }

  lemma ClearFlagKeeps(s: State, w: nat)
    requires Inv(s) && Enabled(s, ClearFlag(w))
    ensures Inv(Do(s, ClearFlag(w)))
  {
    var t := Do(s, ClearFlag(w));
    Local(s, w);
    LocalsFrame(s, t, w);
    IdsFrame(s, t);
    ClearFlagLocks(s, w);
  }

  lemma ReleaseExtraKeeps(s: State, w: nat)
    requires Inv(s) && Enabled(s, ReleaseExtra(w))
    ensures Inv(Do(s, ReleaseExtra(w)))
  {
    var t := Do(s, ReleaseExtra(w));
    Local(s, w);
    assert HoldsOk(s, w);
    assert CurrentExtras(s.ws[w])[0] == NextExtra(s.ws[w]);
    assert LocalsOk(t) by {
      LocalsFrame(s, t, w);
    }
    assert IdsOk(t) by {
      IdsFrame(s, t);
    }
    QueuedIsAnother(s, w);
    ReleaseExtraLocks(s, w);
  }

  /** A queued run is not the one in progress. */
  lemma QueuedIsAnother(s: State, w: nat)
    requires LocalsOk(s) && w < |s.ws| && s.ws[w].pc.Releasing?
    ensures QueuedId(s.ws[w]) != Some(s.ws[w].pc.id)
  {
    Local(s, w);
    if QueuedId(s.ws[w]).Some? {
      assert QueuedId(s.ws[w]).value in Queued(s.ws[w]);
    }
  }

  lemma ReleaseOwnKeeps(s: State, w: nat)
    requires Inv(s) && Enabled(s, ReleaseOwn(w))
    ensures Inv(Do(s, ReleaseOwn(w)))
  {
    var t := Do(s, ReleaseOwn(w));
    Local(s, w);
    LocalsFrame(s, t, w);
    IdsFrame(s, t);
    ReleaseOwnLocks(s, w);
  }

  /** The steps that only change what the controller is up to. */
  lemma CtrlKeeps(s: State, t: State)
    requires Inv(s) && t == s.(ctrl := t.ctrl) && CtrlOk(|t.ws|, t.ctrl)
    requires CtrlExtras(t.ctrl) == CtrlExtras(s.ctrl)
    requires (s.ctrl.Unwinding? && s.ctrl.cleared) == (t.ctrl.Unwinding? && t.ctrl.cleared)
    requires forall i :: 0 <= i < |s.ws| ==> StageOf(t.ctrl, i) == StageOf(s.ctrl, i)
    ensures Inv(t)
  {
    forall i | 0 <= i < |t.ws| ensures LocalOk(|t.ws|, t.nextId, i, t.ws[i], StageOf(t.ctrl, i)) {
      Local(s, i);
    }
    IdsFrame(s, t);
    AllTidy(s);
    LocksFrame(s, t);
  }

  lemma TryBlockKeeps(s: State)
    requires Inv(s) && Enabled(s, TryBlock)
    ensures Inv(Do(s, TryBlock))
  {
    var t := Do(s, TryBlock);
    var c := s.ctrl.cands[0];
    assert CtrlOk(|t.ws|, t.ctrl) by {
      assert forall i :: 0 <= i < |t.ctrl.cands| ==> t.ctrl.cands[i] == s.ctrl.cands[i + 1];
    }
    if s.ws[c].lock.Free? {
      Local(s, c);
      LocalsFrame(s, t, c);
      IdsFrame(s, t);
      TryBlockLocks(s);
    } else {
      CtrlKeeps(s, t);
    }
  }

  lemma PlacementKeepsLocals(s: State)
    requires Inv(s) && Places(s)
    ensures LocalsOk(Do(s, TryAddRun)) && IdsOk(Do(s, TryAddRun))
  {
    var t := Do(s, TryAddRun);
    var c := s.ctrl.cands[0];
    assert t.ws[c] == s.ws[c].(command := Some(Run(s.nextId, s.ctrl.extras)), accepted := s.ws[c].accepted + [s.nextId]);
    assert LocalOk(|t.ws|, t.nextId, c, t.ws[c], StageOf(t.ctrl, c)) by {
      Local(s, c);
      AddLocal(|s.ws|, s.nextId, c, s.ws[c], s.ctrl.extras);
    }
    LocalsFrame(s, t, c);
    IdsExtended(s, t, c);
  }

  lemma PlacementKeepsLocks(s: State)
    requires Inv(s) && Places(s)
    ensures LocksOk(Do(s, TryAddRun))
  {
    forall i | 0 <= i < |s.ws| ensures PendingBelow(s.ws[i], s.nextId) && CurrentId(s.ws[i]) != Some(s.nextId) {
      Local(s, i);
      AcceptedBelow(|s.ws|, s.nextId, i, s.ws[i], StageOf(s.ctrl, i));
    }
    TryAddRunLocks(s);
  }

  lemma TryAddRunKeeps(s: State)
    requires Inv(s) && Enabled(s, TryAddRun)
    ensures Inv(Do(s, TryAddRun))
  {
    var c := s.ctrl.cands[0];
    if !s.ws[c].inUse && s.ws[c].command.None? {
      PlacementKeepsLocals(s);
      PlacementKeepsLocks(s);
    } else {
      var t := Do(s, TryAddRun);
      assert forall i :: 0 <= i < |t.ctrl.cands| ==> t.ctrl.cands[i] == s.ctrl.cands[i + 1];
      CtrlKeeps(s, t);
    }
  }

  lemma UnwindFlagKeeps(s: State)
    requires Inv(s) && Enabled(s, UnwindFlag)
    ensures Inv(Do(s, UnwindFlag))
  {
    var t := Do(s, UnwindFlag);
    LocalsFrame(s, t, |t.ws|);
    IdsFrame(s, t);
    UnwindFlagLocks(s);
  }

  lemma UnwindLockKeeps(s: State)
    requires Inv(s) && Enabled(s, UnwindLock)
    ensures Inv(Do(s, UnwindLock))
  {
    var t := Do(s, UnwindLock);
    assert LocalsOk(t) by {
      UnwindLockExtras(s);
      LocalsFrame(s, t, |t.ws|);
    }
    IdsFrame(s, t);
    UnwindLockLocks(s);
  }

  lemma CollectKeeps(s: State, step: Step)
    requires Inv(s) && Enabled(s, step)
    requires step.Collect? || (step.GetResult? && s.ws[s.ctrl.worker].results[0].Some?)
    ensures Inv(Do(s, step))
  {
    var w := if step.Collect? then step.w else s.ctrl.worker;
    Local(s, w);
    CollectLocal(|s.ws|, s.nextId, w, s.ws[w], StageOf(s.ctrl, w));
    QueueKeeps(s, Do(s, step), w);
  }

  lemma SendStopKeeps(s: State)
    requires Inv(s) && Enabled(s, SendStop)
    ensures Inv(Do(s, SendStop))
  {
    var w := s.ctrl.worker;
    Local(s, w);
    QueueKeeps(s, Do(s, SendStop), w);
  }

  lemma GetMarkerKeeps(s: State)
    requires Inv(s) && Enabled(s, GetResult) && s.ws[s.ctrl.worker].results[0].None?
    ensures Inv(Do(s, GetResult))
  {
    var w := s.ctrl.worker;
    var worker := s.ws[w];
    Local(s, w);
    assert |worker.results| == 1;
    assert Ids(worker.results) == Ids([]);
    QueueKeeps(s, Do(s, GetResult), w);
  }

  lemma WorkerStepKeepsInv(s: State, step: Step)
    requires Inv(s) && Enabled(s, step) && IsWorkerStep(step)
    ensures Inv(Do(s, step))
  {
    match step
    case Dequeue(w) =>
      if s.ws[w].command.value.Stop? { DequeueStopKeeps(s, w); } else { DequeueRunKeeps(s, w); }
    case Acquire(w) => AcquireKeeps(s, w);
    case Publish(w) => PublishKeeps(s, w);
    case ClearFlag(w) => ClearFlagKeeps(s, w);
    case ReleaseExtra(w) => ReleaseExtraKeeps(s, w);
    case ReleaseOwn(w) => ReleaseOwnKeeps(s, w);
  }

  lemma PlacingStepKeepsInv(s: State, step: Step)
    requires Inv(s) && Enabled(s, step)
    requires step.Begin? || step.TryBlock? || step.TryAddRun? || step.GiveUp? || step.UnwindFlag? || step.UnwindLock? || step.EndUnwind?
    ensures Inv(Do(s, step))
  {
    match step
    case Begin(_, _) => CtrlKeeps(s, Do(s, step));
    case TryBlock => TryBlockKeeps(s);
    case TryAddRun => TryAddRunKeeps(s);
    case GiveUp =>
      assert s.ctrl.extras[0..] == s.ctrl.extras;
      CtrlKeeps(s, Do(s, step));
    case UnwindFlag => UnwindFlagKeeps(s);
    case UnwindLock => UnwindLockKeeps(s);
    case EndUnwind => CtrlKeeps(s, Do(s, step));
  }

  /** Every step of every thread keeps the invariant. */
  lemma StepKeepsInv(s: State, step: Step)
    requires Inv(s) && Enabled(s, step)
    ensures Inv(Do(s, step))
  {
    if IsWorkerStep(step) {
      WorkerStepKeepsInv(s, step);
    } else if step.Collect? || step.GetResult? {
      if step.Collect? || s.ws[s.ctrl.worker].results[0].Some? {
        CollectKeeps(s, step);
      } else {
        GetMarkerKeeps(s);
      }
    } else if step.SendStop? {
      SendStopKeeps(s);
    } else if step.BeginStop? || step.EndStop? {
      CtrlKeeps(s, Do(s, step));
    } else {
      PlacingStepKeepsInv(s, step);
    }
  }

  /** The invariant holds in every state of every run. */
  lemma {:induction false} RunsKeepInv(s: State, steps: seq<Step>)
    requires Inv(s) && CanRun(s, steps)
    ensures Inv(RunAll(s, steps))
    decreases |steps|
  {
    if steps != [] {
      StepKeepsInv(s, steps[0]);
      RunsKeepInv(Do(s, steps[0]), steps[1..]);
    }
  }

  /** A state that a runner with CPU affinity can get into. */
  ghost predicate Reachable(s: State) {
    exists s0, steps :: Init(s0) && s0.affinity && CanRun(s0, steps) && RunAll(s0, steps) == s
  }

  lemma ReachableInv(s: State)
    requires Reachable(s)
    ensures Inv(s)
  {
    var s0, steps :| Init(s0) && s0.affinity && CanRun(s0, steps) && RunAll(s0, steps) == s;
    InitInv(s0);
    RunsKeepInv(s0, steps);
  }

  // ---- CPU exclusivity and reservation accounting

  /** The CPUs that the run executing on worker `i` is bound to. */
  function Cpus(s: State, i: nat): set<nat>
    requires i < |s.ws| && s.ws[i].pc.Executing?
  {
    {i} + set e | e in s.ws[i].pc.extras
  }

  /** What the invariant says of one run with extra workers. */
  lemma ExtrasAreLocked(s: State, h: nat)
    requires Inv(s) && h < |s.ws|
    ensures LocalOk(|s.ws|, s.nextId, h, s.ws[h], StageOf(s.ctrl, h)) && HoldsOk(s, h)
    ensures h !in CurrentExtras(s.ws[h]) && h !in QueuedExtras(s.ws[h])
    ensures forall e :: e in CurrentExtras(s.ws[h]) || e in QueuedExtras(s.ws[h]) ==> e < |s.ws|
  {
    Local(s, h);
  }

  /** Runs that execute at the same time never share a CPU, and no run reserves its own host. */
  lemma ExecutingRunsAreExclusive(s: State, i: nat, j: nat)
    requires Reachable(s) && i < |s.ws| && j < |s.ws| && i != j
    requires s.ws[i].pc.Executing? && s.ws[j].pc.Executing?
    ensures Cpus(s, i) !! Cpus(s, j)
    ensures i !in s.ws[i].pc.extras && Distinct(s.ws[i].pc.extras)
  {
    ReachableInv(s);
    ExecutingIsAlone(s, i);
    ExecutingIsAlone(s, j);
  }

  lemma ExecutingIsAlone(s: State, i: nat)
    requires Inv(s) && i < |s.ws| && s.ws[i].pc.Executing?
    ensures s.ws[i].lock.Own? && Distinct(s.ws[i].pc.extras) && i !in s.ws[i].pc.extras
    ensures forall e :: e in s.ws[i].pc.extras ==> e < |s.ws| && s.ws[e].lock == ForRun(s.ws[i].pc.id, i)
  {
    ExtrasAreLocked(s, i);
  }

  /** A run that was accepted and has not unblocked this extra worker yet. */
  predicate Reserves(s: State, h: nat, id: nat, e: nat)
    requires h < |s.ws|
  {
    Holds(s.ws[h], id, e)
  }

  /** Outside of a placement, a worker's lock is taken by another thread exactly if some accepted run has it
      among the extra workers it has not unblocked; that run is unique, and is hosted elsewhere. */
  lemma ReservationsAreAccounted(s: State, e: nat)
    requires Reachable(s) && e < |s.ws| && CtrlExtras(s.ctrl) == []
    ensures s.ws[e].lock.ForRun? || s.ws[e].lock.Reserved?
            <==> exists h: nat, id: nat :: h < |s.ws| && Reserves(s, h, id, e)
    ensures forall h: nat, id: nat, h': nat, id': nat ::
              h < |s.ws| && h' < |s.ws| && Reserves(s, h, id, e) && Reserves(s, h', id', e) ==> h == h' && id == id' && h != e
  {
    ReachableInv(s);
    assert LockOk(s, e);
    if s.ws[e].lock.ForRun? {
      assert Reserves(s, s.ws[e].lock.host, s.ws[e].lock.id, e);
    }
    forall h: nat, id: nat | h < |s.ws| && Reserves(s, h, id, e) ensures s.ws[e].lock == ForRun(id, h) && h != e {
      ExtrasAreLocked(s, h);
    }
  }

  /** A lock is only ever released for the one it was taken for: a host unblocks workers that are reserved
      for its own run, the controller ones that it reserved itself, and a thread its own. */
  lemma ReleasesAreMatched(s: State, w: nat)
    requires Reachable(s)
    ensures Enabled(s, ReleaseExtra(w)) ==> s.ws[NextExtra(s.ws[w])].lock == ForRun(s.ws[w].pc.id, w)
    ensures Enabled(s, UnwindLock) ==> s.ws[s.ctrl.extras[s.ctrl.done]].lock.Reserved?
    ensures Enabled(s, ReleaseOwn(w)) ==> s.ws[w].lock.Own?
  {
    ReachableInv(s);
    if w < |s.ws| {
      ExtrasAreLocked(s, w);
      if Enabled(s, ReleaseExtra(w)) {
        assert CurrentExtras(s.ws[w])[0] == NextExtra(s.ws[w]);
      }
    }
    if Enabled(s, UnwindLock) {
      assert CtrlExtras(s.ctrl)[0] == s.ctrl.extras[s.ctrl.done];
    }
  }

  // ---- Result conservation

  /** In every state, the runs given to a worker are, in this order, those whose results were collected,
      those in its result queue, the one being executed and the one queued. */
  lemma ResultsAreConserved(s: State, w: nat)
    requires Reachable(s) && w < |s.ws|
    ensures s.ws[w].accepted == s.ws[w].collected + Ids(s.ws[w].results) + InFlight(s.ws[w]) + Queued(s.ws[w])
  {
    ReachableInv(s);
    Local(s, w);
  }

  /** When the controller moves on from a worker in the shutdown, all runs given to that worker have been
      executed and collected, each once and in order. */
  lemma StoppedWorkersAreDrained(s: State, w: nat)
    requires Reachable(s) && w < |s.ws| && StageOf(s.ctrl, w).Done?
    ensures s.ws[w].pc.Stopped? && s.ws[w].collected == s.ws[w].accepted
  {
    ReachableInv(s);
    Local(s, w);
  }

  /** After the shutdown, every run that was ever accepted has its result collected exactly once, from
      exactly one worker. */
  lemma EveryRunIsCollectedOnce(s: State, id: nat)
    requires Reachable(s) && s.ctrl.Finished? && id < s.nextId
    ensures exists w :: 0 <= w < |s.ws| && multiset(s.ws[w].collected)[id] == 1
                        && forall v :: 0 <= v < |s.ws| && v != w ==> id !in s.ws[v].collected
  {
    ReachableInv(s);
    assert Given(s, id);
    var w :| 0 <= w < |s.ws| && id in s.ws[w].accepted;
    StoppedWorkersAreDrained(s, w);
    Local(s, w);
    IncreasingOnce(s.ws[w].accepted, id);
    forall v | 0 <= v < |s.ws| && v != w ensures id !in s.ws[v].collected {
      StoppedWorkersAreDrained(s, v);
    }
  }

  lemma {:induction false} IncreasingOnce(ids: seq<nat>, id: nat)
    requires Increasing(ids) && id in ids
    ensures multiset(ids)[id] == 1
    decreases |ids|
  {
    assert ids == [ids[0]] + ids[1..];
    if ids[0] != id {
      IncreasingOnce(ids[1..], id);
    } else {
      assert id !in ids[1..];
    }
  }
}
