/**
  The protocol between the controller of the parallel benchmark runner and its workers, as a state machine.

  There is one worker thread per CPU and one controller thread. They share, per worker, a command queue of
  one slot, a result queue, a lock, and a flag that the worker's CPU is in use by a run on another worker.
  A step is one interaction with a queue, a lock or a flag by one thread; threads interleave freely. How
  long a benchmark runs is the time until the step that publishes its result.

  Three things in the state are not in the program and steer no step: who a lock is held for, and for each
  worker the runs it was given and the results that were collected from it.
 */
module WorkerProtocol {
  import opened Wrappers

  datatype Task = Stop | Run(id: nat, extras: seq<nat>)

  /** A lock is free or not; if not, it is held by its own worker's thread, by the controller for the run
      that is being placed, or for a placed run on some host. */
  datatype Lock = Free | Own | Reserved | ForRun(id: nat, host: nat)

  /** Where a worker's thread is. While releasing, it has published the result of its run and unblocked the
      first `done` of its extra workers; of the next one, the flag may have been cleared already. */
  datatype Pc =
    | Idle
    | Waiting(id: nat, extras: seq<nat>)
    | Executing(id: nat, extras: seq<nat>)
    | Releasing(id: nat, extras: seq<nat>, done: nat, cleared: bool)
    | Stopped

  datatype Worker = Worker(
    command: Option<Task>, results: seq<Option<nat>>, lock: Lock, inUse: bool, pc: Pc,
    accepted: seq<nat>, collected: seq<nat>)

  const NEW_WORKER: Worker := Worker(None, [], Free, false, Idle, [], [])

  /** Where the controller is: between placements, looking for `need` CPUs among the candidates that are
      left, giving back what it reserved in vain, shutting down worker after worker, or finished. */
  datatype Ctrl =
    | Between
    | Placing(need: nat, extras: seq<nat>, cands: seq<nat>)
    | Unwinding(extras: seq<nat>, done: nat, cleared: bool)
    | Stopping(worker: nat, sent: bool)
    | Finished

  /** `affinity` is fixed: whether runs are bound to CPUs. */
  datatype State = State(affinity: bool, ws: seq<Worker>, ctrl: Ctrl, nextId: nat)

  predicate Distinct(s: seq<nat>) {
    forall i, j :: 0 <= i < j < |s| ==> s[i] != s[j]
  }

  predicate Init(s: State) {
    s.ctrl == Between && s.nextId == 0 && forall i :: 0 <= i < |s.ws| ==> s.ws[i] == NEW_WORKER
  }

  datatype Step =
    // a worker's thread
    | Dequeue(w: nat)
    | Acquire(w: nat)
    | Publish(w: nat)
    | ClearFlag(w: nat)
    | ReleaseExtra(w: nat)
    | ReleaseOwn(w: nat)
    // the controller
    | Begin(need: nat, cands: seq<nat>)
    | TryBlock
    | TryAddRun
    | GiveUp
    | UnwindFlag
    | UnwindLock
    | EndUnwind
    | Collect(w: nat)
    | BeginStop
    | SendStop
    | GetResult
    | EndStop

  predicate IsWorkerStep(step: Step) {
    step.Dequeue? || step.Acquire? || step.Publish? || step.ClearFlag? || step.ReleaseExtra? || step.ReleaseOwn?
  }

  predicate Enabled(s: State, step: Step) {
    var n := |s.ws|;
    match step
    case Dequeue(w) => w < n && s.ws[w].pc.Idle? && s.ws[w].command.Some?
    case Acquire(w) => w < n && s.ws[w].pc.Waiting? && s.ws[w].lock.Free?
    case Publish(w) => w < n && s.ws[w].pc.Executing?
    case ClearFlag(w) =>
      w < n && s.ws[w].pc.Releasing? && !s.ws[w].pc.cleared
      && s.ws[w].pc.done < |s.ws[w].pc.extras| && s.ws[w].pc.extras[s.ws[w].pc.done] < n
    case ReleaseExtra(w) =>
      w < n && s.ws[w].pc.Releasing? && s.ws[w].pc.cleared
      && s.ws[w].pc.done < |s.ws[w].pc.extras| && s.ws[w].pc.extras[s.ws[w].pc.done] < n
    case ReleaseOwn(w) => w < n && s.ws[w].pc.Releasing? && s.ws[w].pc.done == |s.ws[w].pc.extras|
    case Begin(need, cands) => s.ctrl.Between? && Distinct(cands) && forall i :: 0 <= i < |cands| ==> cands[i] < n
    case TryBlock => s.ctrl.Placing? && s.ctrl.need > 1 && s.ctrl.cands != [] && s.ctrl.cands[0] < n
    case TryAddRun => s.ctrl.Placing? && s.ctrl.need <= 1 && s.ctrl.cands != [] && s.ctrl.cands[0] < n
    case GiveUp => s.ctrl.Placing? && s.ctrl.cands == []
    case UnwindFlag =>
      s.ctrl.Unwinding? && !s.ctrl.cleared && s.ctrl.done < |s.ctrl.extras| && s.ctrl.extras[s.ctrl.done] < n
    case UnwindLock =>
      s.ctrl.Unwinding? && s.ctrl.cleared && s.ctrl.done < |s.ctrl.extras| && s.ctrl.extras[s.ctrl.done] < n
    case EndUnwind => s.ctrl.Unwinding? && s.ctrl.done == |s.ctrl.extras|
    case Collect(w) => s.ctrl.Between? && w < n && s.ws[w].results != [] && s.ws[w].results[0].Some?
    case BeginStop => s.ctrl.Between?
    case SendStop => s.ctrl.Stopping? && !s.ctrl.sent && s.ctrl.worker < n && s.ws[s.ctrl.worker].command.None?
    case GetResult => s.ctrl.Stopping? && s.ctrl.sent && s.ctrl.worker < n && s.ws[s.ctrl.worker].results != []
    case EndStop => s.ctrl.Stopping? && !s.ctrl.sent && s.ctrl.worker == n
  }

  function Set(s: State, w: nat, worker: Worker): State
    requires w < |s.ws|
  {
    s.(ws := s.ws[w := worker])
  }

  /** Hands the locks reserved by the controller to a placed run. */
  function Handed(ws: seq<Worker>, extras: seq<nat>, id: nat, host: nat): (r: seq<Worker>)
    ensures |r| == |ws|
    ensures forall i :: 0 <= i < |ws| ==> r[i] == if i in extras then ws[i].(lock := ForRun(id, host)) else ws[i]
  {
    seq(|ws|, i requires 0 <= i < |ws| => if i in extras then ws[i].(lock := ForRun(id, host)) else ws[i])
  }

  function Do(s: State, step: Step): State
    requires Enabled(s, step)
  {
    match step
    case Dequeue(w) =>
      var worker := s.ws[w];
      Set(s, w,
          if worker.command.value.Stop? then
            worker.(command := None, pc := Stopped, results := worker.results + [None])
          else
            worker.(command := None, pc := Waiting(worker.command.value.id, worker.command.value.extras)))
    case Acquire(w) =>
      Set(s, w, s.ws[w].(lock := Own, pc := Executing(s.ws[w].pc.id, s.ws[w].pc.extras)))
    case Publish(w) =>
      var worker := s.ws[w];
      var done := if s.affinity then 0 else |worker.pc.extras|;
      Set(s, w, worker.(results := worker.results + [Some(worker.pc.id)],
                        pc := Releasing(worker.pc.id, worker.pc.extras, done, false)))
    case ClearFlag(w) =>
      var e := s.ws[w].pc.extras[s.ws[w].pc.done];
      var s1 := Set(s, e, s.ws[e].(inUse := false));
      Set(s1, w, s1.ws[w].(pc := s1.ws[w].pc.(cleared := true)))
    case ReleaseExtra(w) =>
      var e := s.ws[w].pc.extras[s.ws[w].pc.done];
      var s1 := Set(s, e, s.ws[e].(lock := Free));
      Set(s1, w, s1.ws[w].(pc := s1.ws[w].pc.(done := s1.ws[w].pc.done + 1, cleared := false)))
    case ReleaseOwn(w) => Set(s, w, s.ws[w].(lock := Free, pc := Idle))
    case Begin(need, cands) => s.(ctrl := Placing(need, [], cands))
    case TryBlock =>
      var c, rest := s.ctrl.cands[0], s.ctrl.cands[1..];
      if s.ws[c].lock.Free? then
        Set(s, c, s.ws[c].(lock := Reserved, inUse := true))
        .(ctrl := Placing(s.ctrl.need - 1, s.ctrl.extras + [c], rest))
      else s.(ctrl := s.ctrl.(cands := rest))
    case TryAddRun =>
      var c, rest := s.ctrl.cands[0], s.ctrl.cands[1..];
      if !s.ws[c].inUse && s.ws[c].command.None? then
        var s1 := s.(ws := Handed(s.ws, s.ctrl.extras, s.nextId, c));
        Set(s1, c, s1.ws[c].(command := Some(Run(s.nextId, s.ctrl.extras)), accepted := s1.ws[c].accepted + [s.nextId]))
        .(ctrl := Between, nextId := s.nextId + 1)
      else s.(ctrl := s.ctrl.(cands := rest))
    case GiveUp => s.(ctrl := Unwinding(s.ctrl.extras, 0, false))
    case UnwindFlag =>
      var e := s.ctrl.extras[s.ctrl.done];
      Set(s, e, s.ws[e].(inUse := false)).(ctrl := s.ctrl.(cleared := true))
    case UnwindLock =>
      var e := s.ctrl.extras[s.ctrl.done];
      Set(s, e, s.ws[e].(lock := Free)).(ctrl := s.ctrl.(done := s.ctrl.done + 1, cleared := false))
    case EndUnwind => s.(ctrl := Between)
    case Collect(w) => Set(s, w, Collected(s.ws[w]))
    case BeginStop => s.(ctrl := Stopping(0, false))
    case SendStop => Set(s, s.ctrl.worker, s.ws[s.ctrl.worker].(command := Some(Stop))).(ctrl := s.ctrl.(sent := true))
    case GetResult =>
      var w := s.ctrl.worker;
      if s.ws[w].results[0].Some? then Set(s, w, Collected(s.ws[w]))
      else Set(s, w, s.ws[w].(results := s.ws[w].results[1..])).(ctrl := Stopping(w + 1, false))
    case EndStop => s.(ctrl := Finished)
  }

  /** The worker after its oldest result has been taken. */
  function Collected(worker: Worker): Worker
    requires worker.results != [] && worker.results[0].Some?
  {
    worker.(results := worker.results[1..], collected := worker.collected + [worker.results[0].value])
  }

  /** The steps can be taken one after the other. */
  predicate CanRun(s: State, steps: seq<Step>)
    decreases |steps|
  {
    steps == [] || (Enabled(s, steps[0]) && CanRun(Do(s, steps[0]), steps[1..]))
  }

  function RunAll(s: State, steps: seq<Step>): (t: State)
    requires CanRun(s, steps)
    decreases |steps|
  {
    if steps == [] then s else RunAll(Do(s, steps[0]), steps[1..])
  }
}
