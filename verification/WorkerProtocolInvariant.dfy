/** The invariant of the worker protocol, and the proof that every step keeps it. */
module WorkerProtocolInvariant {
  import opened Wrappers
  import opened WorkerProtocol

  // ---- What is going on at one worker

  /** The run that the worker's thread is busy with. */
  function CurrentId(w: Worker): Option<nat> {
    if w.pc.Idle? || w.pc.Stopped? then None else Some(w.pc.id)
  }

  /** The extra workers that this run has not unblocked yet. */
  function CurrentExtras(w: Worker): seq<nat> {
    if w.pc.Waiting? || w.pc.Executing? then w.pc.extras
    else if w.pc.Releasing? && w.pc.done <= |w.pc.extras| then w.pc.extras[w.pc.done..]
    else []
  }

  function QueuedId(w: Worker): Option<nat> {
    if w.command.Some? && w.command.value.Run? then Some(w.command.value.id) else None
  }

  function QueuedExtras(w: Worker): seq<nat> {
    if w.command.Some? && w.command.value.Run? then w.command.value.extras else []
  }

  /** The extra worker whose flag is cleared but whose lock is still held. */
  predicate InWindow(w: Worker, e: nat) {
    w.pc.Releasing? && w.pc.cleared && w.pc.done < |w.pc.extras| && w.pc.extras[w.pc.done] == e
  }

  /** Every run that was accepted here and does not have the lock yet is older than `id`. */
  predicate PendingBelow(w: Worker, id: nat) {
    && (QueuedId(w).Some? ==> QueuedId(w).value < id)
    && (w.pc.Waiting? ==> w.pc.id < id)
  }

  /** The run holds extra workers, as the one queued or the one the thread is busy with. */
  predicate Holds(w: Worker, id: nat, e: nat) {
    || (CurrentId(w) == Some(id) && e in CurrentExtras(w))
    || (QueuedId(w) == Some(id) && e in QueuedExtras(w))
  }

  /** The ids of some results, which come before any end marker. */
  function Ids(results: seq<Option<nat>>): (ids: seq<nat>) {
    if results == [] || results[0].None? then [] else [results[0].value] + Ids(results[1..])
  }

  predicate AllSome(results: seq<Option<nat>>) {
    forall i :: 0 <= i < |results| ==> results[i].Some?
  }

  function InFlight(w: Worker): seq<nat> {
    if w.pc.Waiting? || w.pc.Executing? then [w.pc.id] else []
  }

  function Queued(w: Worker): seq<nat> {
    if QueuedId(w).Some? then [QueuedId(w).value] else []
  }

  /** No run is lost or doubled: what was accepted is what was collected, then what is in the result queue,
      then what is being executed, then what is queued, in that order. */
  predicate Conserved(w: Worker) {
    w.accepted == w.collected + Ids(w.results) + InFlight(w) + Queued(w)
  }

  // ---- How far the shutdown has come at a worker

  datatype Stage = Serving | Told | Done

  function StageOf(ctrl: Ctrl, i: nat): Stage {
    if ctrl.Finished? then Done
    else if !ctrl.Stopping? || i > ctrl.worker || (i == ctrl.worker && !ctrl.sent) then Serving
    else if i == ctrl.worker then Told
    else Done
  }

  predicate StageOk(w: Worker, stage: Stage) {
    match stage
    case Serving => w.command != Some(Stop) && !w.pc.Stopped? && AllSome(w.results)
    case Told =>
      if w.pc.Stopped? then
        w.command.None? && w.results != [] && w.results[|w.results| - 1].None? && AllSome(w.results[..|w.results| - 1])
      else
        w.command == Some(Stop) && AllSome(w.results)
    case Done => w.pc.Stopped? && w.command.None? && w.results == []
  }

  // ---- The invariant

  predicate GoodExtras(n: nat, host: nat, extras: seq<nat>) {
    Distinct(extras) && forall i :: 0 <= i < |extras| ==> extras[i] < n && extras[i] != host
  }

  predicate Increasing(s: seq<nat>) {
    forall i, j :: 0 <= i < j < |s| ==> s[i] < s[j]
  }

  /** What holds of each worker by itself. */
  predicate LocalOk(n: nat, nextId: nat, host: nat, w: Worker, stage: Stage) {
    && (w.pc.Waiting? || w.pc.Executing? || w.pc.Releasing? ==> GoodExtras(n, host, w.pc.extras) && w.pc.id in w.accepted)
    && (w.pc.Releasing? ==>
          w.pc.done <= |w.pc.extras| && (w.pc.cleared ==> w.pc.done < |w.pc.extras|) && w.pc.id !in Queued(w))
    && GoodExtras(n, host, QueuedExtras(w))
    && (w.lock.Own? <==> w.pc.Executing? || w.pc.Releasing?)
    && Conserved(w)
    && Increasing(w.accepted)
    && (forall i :: 0 <= i < |w.accepted| ==> w.accepted[i] < nextId)
    && StageOk(w, stage)
  }

  /** What the controller has reserved and not yet handed over or given back. */
  function CtrlExtras(ctrl: Ctrl): seq<nat> {
    if ctrl.Placing? then ctrl.extras
    else if ctrl.Unwinding? && ctrl.done <= |ctrl.extras| then ctrl.extras[ctrl.done..]
    else []
  }

  predicate CtrlWindow(ctrl: Ctrl, e: nat) {
    ctrl.Unwinding? && ctrl.cleared && ctrl.done < |ctrl.extras| && ctrl.extras[ctrl.done] == e
  }

  predicate CtrlOk(n: nat, ctrl: Ctrl) {
    && Distinct(CtrlExtras(ctrl))
    && (forall i :: 0 <= i < |CtrlExtras(ctrl)| ==> CtrlExtras(ctrl)[i] < n)
    && (ctrl.Placing? ==>
          && Distinct(ctrl.cands)
          && (forall i :: 0 <= i < |ctrl.cands| ==> ctrl.cands[i] < n && ctrl.cands[i] !in ctrl.extras))
    && (ctrl.Unwinding? ==> ctrl.done <= |ctrl.extras| && (ctrl.cleared ==> ctrl.done < |ctrl.extras|))
    && (ctrl.Stopping? ==> ctrl.worker <= n && (ctrl.sent ==> ctrl.worker < n))
  }

  /** What a worker's lock and flag say about the rest of the system. A lock that is held for a run is held
      for one that has it among its extra workers; the flag is up except in the window between the two
      steps of unblocking; and while it is up, everything pending at the worker is older than the run. */
  ghost predicate LockOk(s: State, e: nat)
    requires e < |s.ws|
  {
    var w := s.ws[e];
    match w.lock
    case Free => !w.inUse
    case Own => !w.inUse
    case Reserved => e in CtrlExtras(s.ctrl) && (w.inUse <==> !CtrlWindow(s.ctrl, e))
    case ForRun(id, host) =>
      && host < |s.ws|
      && Holds(s.ws[host], id, e)
      && (w.inUse <==> !(CurrentId(s.ws[host]) == Some(id) && InWindow(s.ws[host], e)))
      && (w.inUse ==> PendingBelow(w, id))
  }

  /** A run that has extra workers has their locks. */
  ghost predicate HoldsOk(s: State, h: nat)
    requires h < |s.ws|
  {
    && (forall e :: e in CurrentExtras(s.ws[h]) && e < |s.ws| ==> s.ws[e].lock == ForRun(CurrentId(s.ws[h]).value, h))
    && (forall e :: e in QueuedExtras(s.ws[h]) && e < |s.ws| ==> s.ws[e].lock == ForRun(QueuedId(s.ws[h]).value, h))
  }

  predicate LocalsOk(s: State) {
    && CtrlOk(|s.ws|, s.ctrl)
    && forall i :: 0 <= i < |s.ws| ==> LocalOk(|s.ws|, s.nextId, i, s.ws[i], StageOf(s.ctrl, i))
  }

  ghost predicate LocksOk(s: State) {
    && (forall e :: 0 <= e < |s.ws| ==> LockOk(s, e))
    && (forall h :: 0 <= h < |s.ws| ==> HoldsOk(s, h))
    && (forall e :: e in CtrlExtras(s.ctrl) && e < |s.ws| ==> s.ws[e].lock.Reserved?)
  }

  ghost predicate Given(s: State, id: nat) {
    exists i :: 0 <= i < |s.ws| && id in s.ws[i].accepted
  }

  /** Every id below the next one was given to exactly one worker. */
  ghost predicate IdsOk(s: State) {
    && (forall i, j :: 0 <= i < j < |s.ws| ==> forall id :: id in s.ws[i].accepted ==> id !in s.ws[j].accepted)
    && (forall id: nat :: id < s.nextId ==> Given(s, id))
  }

  ghost predicate Inv(s: State) {
    s.affinity && LocalsOk(s) && LocksOk(s) && IdsOk(s)
  }

  lemma InitInv(s: State)
    requires Init(s) && s.affinity
    ensures Inv(s)
  {
    forall i | 0 <= i < |s.ws| ensures LocalOk(|s.ws|, s.nextId, i, s.ws[i], StageOf(s.ctrl, i)) {
      assert s.ws[i] == NEW_WORKER;
    }
  }

  // ---- Result queues

  lemma {:induction false} IdsAppend(results: seq<Option<nat>>, r: Option<nat>)
    requires AllSome(results)
    ensures Ids(results + [r]) == Ids(results) + (if r.Some? then [r.value] else [])
    decreases |results|
  {
    if results == [] {
      assert results + [r] == [r];
      assert [r][1..] == [];
    } else {
      assert (results + [r])[1..] == results[1..] + [r];
      IdsAppend(results[1..], r);
    }
  }

  // ---- One worker at a time

  /** The parts of a worker that the locks of others depend on. */
  predicate SameView(a: Worker, b: Worker) {
    && CurrentId(a) == CurrentId(b) && CurrentExtras(a) == CurrentExtras(b)
    && QueuedId(a) == QueuedId(b) && QueuedExtras(a) == QueuedExtras(b)
    && a.pc.Waiting? == b.pc.Waiting?
    && a.lock == b.lock && a.inUse == b.inUse
  }

  predicate SameWindow(a: Worker, b: Worker) {
    (a.pc.Releasing? && a.pc.cleared) == (b.pc.Releasing? && b.pc.cleared)
  }

  /** Nothing that the locks depend on has changed. */
  ghost predicate SameLocks(s: State, t: State) {
    && |s.ws| == |t.ws|
    && (forall i :: 0 <= i < |s.ws| ==> SameView(s.ws[i], t.ws[i]) && SameWindow(s.ws[i], t.ws[i]))
    && CtrlExtras(s.ctrl) == CtrlExtras(t.ctrl)
    && (s.ctrl.Unwinding? && s.ctrl.cleared) == (t.ctrl.Unwinding? && t.ctrl.cleared)
  }

  predicate Tidy(w: Worker) {
    w.pc.Releasing? ==> w.pc.done <= |w.pc.extras| && (w.pc.cleared ==> w.pc.done < |w.pc.extras|)
  }

  lemma WindowIsFirst(w: Worker, e: nat)
    requires Tidy(w)
    ensures InWindow(w, e) <==> w.pc.Releasing? && w.pc.cleared && CurrentExtras(w)[0] == e
  {
  }

  lemma LockFrame(s: State, t: State, e: nat)
    requires SameLocks(s, t) && e < |s.ws| && LockOk(s, e) && CtrlOk(|s.ws|, s.ctrl) && CtrlOk(|t.ws|, t.ctrl)
    requires forall i :: 0 <= i < |s.ws| ==> Tidy(s.ws[i]) && Tidy(t.ws[i])
    ensures LockOk(t, e)
  {
    var w := s.ws[e];
    assert SameView(w, t.ws[e]);
    if w.lock.ForRun? {
      var host := w.lock.host;
      assert SameView(s.ws[host], t.ws[host]) && SameWindow(s.ws[host], t.ws[host]);
      WindowIsFirst(s.ws[host], e);
      WindowIsFirst(t.ws[host], e);
    } else if w.lock.Reserved? {
      assert s.ctrl.Unwinding? && s.ctrl.cleared ==> s.ctrl.extras[s.ctrl.done] == CtrlExtras(s.ctrl)[0];
      assert t.ctrl.Unwinding? && t.ctrl.cleared ==> t.ctrl.extras[t.ctrl.done] == CtrlExtras(t.ctrl)[0];
    }
  }

  lemma LocksFrame(s: State, t: State)
    requires SameLocks(s, t) && LocksOk(s) && CtrlOk(|s.ws|, s.ctrl) && CtrlOk(|t.ws|, t.ctrl)
    requires forall i :: 0 <= i < |s.ws| ==> Tidy(s.ws[i]) && Tidy(t.ws[i])
    ensures LocksOk(t)
  {
    forall e | 0 <= e < |t.ws| ensures LockOk(t, e) {
      LockFrame(s, t, e);
    }
    forall h | 0 <= h < |t.ws| ensures HoldsOk(t, h) {
      assert HoldsOk(s, h) && SameView(s.ws[h], t.ws[h]);
      forall e: nat | e < |t.ws| ensures t.ws[e].lock == s.ws[e].lock {
        assert SameView(s.ws[e], t.ws[e]);
      }
    }
    forall e | e in CtrlExtras(t.ctrl) && e < |t.ws| ensures t.ws[e].lock.Reserved? {
      assert SameView(s.ws[e], t.ws[e]);
    }
  }

  // ---- The locks, step by step

  lemma DequeueLocks(s: State, w: nat)
    requires LocksOk(s) && CtrlOk(|s.ws|, s.ctrl) && Enabled(s, Dequeue(w)) && s.ws[w].command.value.Run?
    ensures LocksOk(Do(s, Dequeue(w)))
  {
    var t := Do(s, Dequeue(w));
    forall e | 0 <= e < |t.ws| ensures LockOk(t, e) {
      assert LockOk(s, e);
    }
    forall h | 0 <= h < |t.ws| ensures HoldsOk(t, h) {
      assert HoldsOk(s, h);
    }
  }

  lemma AcquireLocks(s: State, w: nat)
    requires LocksOk(s) && Enabled(s, Acquire(w))
    ensures LocksOk(Do(s, Acquire(w)))
  {
    var t := Do(s, Acquire(w));
    forall e | 0 <= e < |t.ws| ensures LockOk(t, e) {
      assert LockOk(s, e);
    }
    forall h | 0 <= h < |t.ws| ensures HoldsOk(t, h) {
      assert HoldsOk(s, h);
    }
  }

  /** The next extra worker that a releasing run unblocks. */
  function NextExtra(w: Worker): nat
    requires w.pc.Releasing? && w.pc.done < |w.pc.extras|
  {
    w.pc.extras[w.pc.done]
  }

  lemma ClearFlagChanges(s: State, w: nat)
    requires Enabled(s, ClearFlag(w)) && GoodExtras(|s.ws|, w, s.ws[w].pc.extras)
    ensures var t, e0 := Do(s, ClearFlag(w)), NextExtra(s.ws[w]);
            && (forall i :: 0 <= i < |s.ws| ==>
                  && CurrentId(t.ws[i]) == CurrentId(s.ws[i]) && CurrentExtras(t.ws[i]) == CurrentExtras(s.ws[i])
                  && t.ws[i].command == s.ws[i].command && t.ws[i].lock == s.ws[i].lock
                  && t.ws[i].inUse == (i != e0 && s.ws[i].inUse)
                  && (i != w ==> t.ws[i].pc == s.ws[i].pc))
            && e0 in CurrentExtras(s.ws[w]) && t.ws[w].pc.Releasing?
            && (forall e :: InWindow(t.ws[w], e) <==> e == e0)
  {
    assert CurrentExtras(s.ws[w])[0] == NextExtra(s.ws[w]);
  }

  lemma ClearFlagLock(s: State, w: nat, e: nat)
    requires Enabled(s, ClearFlag(w)) && GoodExtras(|s.ws|, w, s.ws[w].pc.extras)
    requires e < |s.ws| && LockOk(s, e) && HoldsOk(s, w)
    ensures LockOk(Do(s, ClearFlag(w)), e)
  {
    ClearFlagChanges(s, w);
  }

  lemma ClearFlagLocks(s: State, w: nat)
    requires LocksOk(s) && Enabled(s, ClearFlag(w)) && GoodExtras(|s.ws|, w, s.ws[w].pc.extras)
    ensures LocksOk(Do(s, ClearFlag(w)))
  {
    var t := Do(s, ClearFlag(w));
    forall e | 0 <= e < |t.ws| ensures LockOk(t, e) {
      ClearFlagLock(s, w, e);
    }
    ClearFlagChanges(s, w);
    forall h | 0 <= h < |t.ws| ensures HoldsOk(t, h) {
      assert HoldsOk(s, h);
    }
  }

  lemma ReleaseExtraChanges(s: State, w: nat)
    requires Enabled(s, ReleaseExtra(w)) && GoodExtras(|s.ws|, w, s.ws[w].pc.extras)
    ensures var t, e0 := Do(s, ReleaseExtra(w)), NextExtra(s.ws[w]);
            && (forall i :: 0 <= i < |s.ws| ==>
                  && CurrentId(t.ws[i]) == CurrentId(s.ws[i]) && t.ws[i].pc.Waiting? == s.ws[i].pc.Waiting?
                  && (i != w ==> t.ws[i].pc == s.ws[i].pc)
                  && t.ws[i].command == s.ws[i].command && t.ws[i].inUse == s.ws[i].inUse
                  && t.ws[i].lock == (if i == e0 then Free else s.ws[i].lock))
            && CurrentExtras(s.ws[w]) == [e0] + CurrentExtras(t.ws[w]) && e0 !in CurrentExtras(t.ws[w])
            && (forall e :: InWindow(s.ws[w], e) <==> e == e0)
            && (forall e :: !InWindow(t.ws[w], e))
  {
  }

  lemma ReleaseExtraLock(s: State, w: nat, e: nat)
    requires Enabled(s, ReleaseExtra(w)) && GoodExtras(|s.ws|, w, s.ws[w].pc.extras)
    requires e < |s.ws| && LockOk(s, e) && HoldsOk(s, w) && LockOk(s, NextExtra(s.ws[w]))
    ensures LockOk(Do(s, ReleaseExtra(w)), e)
  {
    ReleaseExtraChanges(s, w);
    var t, e0 := Do(s, ReleaseExtra(w)), NextExtra(s.ws[w]);
    assert s.ws[e0].lock == ForRun(s.ws[w].pc.id, w);
    if e != e0 && s.ws[e].lock.ForRun? && s.ws[e].lock.host == w {
      assert Holds(t.ws[w], s.ws[e].lock.id, e);
    }
  }

  lemma ReleaseExtraHolds(s: State, w: nat, h: nat)
    requires Enabled(s, ReleaseExtra(w)) && GoodExtras(|s.ws|, w, s.ws[w].pc.extras)
    requires h < |s.ws| && HoldsOk(s, h) && HoldsOk(s, w) && QueuedId(s.ws[w]) != Some(s.ws[w].pc.id)
    ensures HoldsOk(Do(s, ReleaseExtra(w)), h)
  {
    ReleaseExtraChanges(s, w);
    var t, e0 := Do(s, ReleaseExtra(w)), NextExtra(s.ws[w]);
    assert s.ws[e0].lock == ForRun(s.ws[w].pc.id, w);
    assert QueuedExtras(t.ws[h]) == QueuedExtras(s.ws[h]) && QueuedId(t.ws[h]) == QueuedId(s.ws[h]);
  }

  lemma ReleaseExtraLocks(s: State, w: nat)
    requires LocksOk(s) && Enabled(s, ReleaseExtra(w)) && GoodExtras(|s.ws|, w, s.ws[w].pc.extras)
    requires QueuedId(s.ws[w]) != Some(s.ws[w].pc.id)
    ensures LocksOk(Do(s, ReleaseExtra(w)))
  {
    var t := Do(s, ReleaseExtra(w));
    forall e | 0 <= e < |t.ws| ensures LockOk(t, e) {
      ReleaseExtraLock(s, w, e);
    }
    forall h | 0 <= h < |t.ws| ensures HoldsOk(t, h) {
      ReleaseExtraHolds(s, w, h);
    }
    ReleaseExtraChanges(s, w);
    assert HoldsOk(s, w);
  }

  lemma ReleaseOwnLocks(s: State, w: nat)
    requires LocksOk(s) && Enabled(s, ReleaseOwn(w)) && s.ws[w].lock.Own?
    ensures LocksOk(Do(s, ReleaseOwn(w)))
  {
    var t := Do(s, ReleaseOwn(w));
    assert CurrentExtras(s.ws[w]) == [];
    forall e | 0 <= e < |t.ws| ensures LockOk(t, e) {
      assert LockOk(s, e);
    }
    forall h | 0 <= h < |t.ws| ensures HoldsOk(t, h) {
      assert HoldsOk(s, h);
    }
  }

  lemma TryBlockLocks(s: State)
    requires LocksOk(s) && Enabled(s, TryBlock) && s.ws[s.ctrl.cands[0]].lock.Free?
    ensures LocksOk(Do(s, TryBlock))
  {
    var t := Do(s, TryBlock);
    forall e | 0 <= e < |t.ws| ensures LockOk(t, e) {
      assert LockOk(s, e);
    }
    forall h | 0 <= h < |t.ws| ensures HoldsOk(t, h) {
      assert HoldsOk(s, h);
    }
  }

  /** A placement that succeeds. */
  predicate Places(s: State) {
    && Enabled(s, TryAddRun)
    && !s.ws[s.ctrl.cands[0]].inUse && s.ws[s.ctrl.cands[0]].command.None?
    && s.ctrl.cands[0] !in s.ctrl.extras
  }

  lemma TryAddRunChanges(s: State)
    requires Places(s)
    ensures var t, c := Do(s, TryAddRun), s.ctrl.cands[0];
            && (forall i :: 0 <= i < |s.ws| ==>
                  && CurrentId(t.ws[i]) == CurrentId(s.ws[i]) && CurrentExtras(t.ws[i]) == CurrentExtras(s.ws[i])
                  && t.ws[i].pc == s.ws[i].pc && t.ws[i].inUse == s.ws[i].inUse
                  && t.ws[i].lock == (if i in s.ctrl.extras then ForRun(s.nextId, c) else s.ws[i].lock)
                  && (i != c ==> QueuedId(t.ws[i]) == QueuedId(s.ws[i]) && QueuedExtras(t.ws[i]) == QueuedExtras(s.ws[i])))
            && QueuedId(t.ws[c]) == Some(s.nextId) && QueuedExtras(t.ws[c]) == s.ctrl.extras
            && QueuedId(s.ws[c]).None?
  {
  }

  lemma TryAddRunLock(s: State, e: nat)
    requires Places(s) && e < |s.ws| && LockOk(s, e)
    requires PendingBelow(s.ws[e], s.nextId) && CurrentId(s.ws[s.ctrl.cands[0]]) != Some(s.nextId)
    requires e in s.ctrl.extras ==> s.ws[e].lock.Reserved?
    ensures LockOk(Do(s, TryAddRun), e)
  {
    TryAddRunChanges(s);
  }

  lemma TryAddRunHolds(s: State, h: nat)
    requires Places(s) && h < |s.ws| && HoldsOk(s, h)
    requires forall e :: e in s.ctrl.extras && e < |s.ws| ==> s.ws[e].lock.Reserved?
    ensures HoldsOk(Do(s, TryAddRun), h)
  {
    TryAddRunChanges(s);
  }

  lemma TryAddRunLocks(s: State)
    requires LocksOk(s) && Places(s)
    requires forall i :: 0 <= i < |s.ws| ==> PendingBelow(s.ws[i], s.nextId) && CurrentId(s.ws[i]) != Some(s.nextId)
    ensures LocksOk(Do(s, TryAddRun))
  {
    var t := Do(s, TryAddRun);
    forall e | 0 <= e < |t.ws| ensures LockOk(t, e) {
      TryAddRunLock(s, e);
    }
    forall h | 0 <= h < |t.ws| ensures HoldsOk(t, h) {
      TryAddRunHolds(s, h);
    }
  }

  lemma UnwindFlagLocks(s: State)
    requires LocksOk(s) && Enabled(s, UnwindFlag)
    ensures LocksOk(Do(s, UnwindFlag))
  {
    var t := Do(s, UnwindFlag);
    var e0 := s.ctrl.extras[s.ctrl.done];
    assert CtrlExtras(s.ctrl)[0] == e0;
    forall e | 0 <= e < |t.ws| ensures LockOk(t, e) {
      assert LockOk(s, e);
    }
    forall h | 0 <= h < |t.ws| ensures HoldsOk(t, h) {
      assert HoldsOk(s, h);
    }
  }

  /** Giving back a lock takes one off the reserved workers. */
  lemma UnwindLockExtras(s: State)
    requires CtrlOk(|s.ws|, s.ctrl) && Enabled(s, UnwindLock)
    ensures CtrlExtras(s.ctrl) == [s.ctrl.extras[s.ctrl.done]] + CtrlExtras(Do(s, UnwindLock).ctrl)
  {
  }

  lemma UnwindLockOther(s: State, e: nat)
    requires CtrlOk(|s.ws|, s.ctrl) && Enabled(s, UnwindLock) && e < |s.ws| && LockOk(s, e)
    requires e != s.ctrl.extras[s.ctrl.done]
    ensures LockOk(Do(s, UnwindLock), e)
  {
    var t := Do(s, UnwindLock);
    UnwindLockExtras(s);
    assert t.ws[e] == s.ws[e] && !CtrlWindow(s.ctrl, e) && !CtrlWindow(t.ctrl, e);
    if s.ws[e].lock.ForRun? {
      var h := s.ws[e].lock.host;
      assert t.ws[h].pc == s.ws[h].pc && t.ws[h].command == s.ws[h].command;
    }
  }

  lemma UnwindLockLock(s: State, e: nat)
    requires CtrlOk(|s.ws|, s.ctrl) && Enabled(s, UnwindLock) && e < |s.ws| && LockOk(s, e)
    requires s.ws[s.ctrl.extras[s.ctrl.done]].lock.Reserved?
    ensures LockOk(Do(s, UnwindLock), e)
  {
    if e == s.ctrl.extras[s.ctrl.done] {
      assert Do(s, UnwindLock).ws[e] == s.ws[e].(lock := Free) && CtrlWindow(s.ctrl, e);
    } else {
      UnwindLockOther(s, e);
    }
  }

  lemma UnwindLockLocks(s: State)
    requires LocksOk(s) && CtrlOk(|s.ws|, s.ctrl) && Enabled(s, UnwindLock)
    ensures LocksOk(Do(s, UnwindLock))
  {
    var t := Do(s, UnwindLock);
    UnwindLockExtras(s);
    forall e | 0 <= e < |t.ws| ensures LockOk(t, e) {
      UnwindLockLock(s, e);
    }
    forall h | 0 <= h < |t.ws| ensures HoldsOk(t, h) {
      assert HoldsOk(s, h);
    }
  }

  // ---- Each worker by itself, step by step

  lemma AcceptedHolds(w: Worker)
    requires Conserved(w)
    ensures forall id :: id in Queued(w) ==> id in w.accepted
    ensures forall id :: id in InFlight(w) ==> id in w.accepted
  {
    var before := w.collected + Ids(w.results) + InFlight(w);
    forall id | id in Queued(w) ensures id in w.accepted {
      assert w.accepted[|before|] == id;
    }
    forall id | id in InFlight(w) ensures id in w.accepted {
      assert w.accepted[|w.collected + Ids(w.results)|] == id;
    }
  }

  lemma AcceptedBelow(n: nat, nextId: nat, host: nat, w: Worker, stage: Stage)
    requires LocalOk(n, nextId, host, w, stage)
    ensures PendingBelow(w, nextId) && CurrentId(w) != Some(nextId)
  {
    AcceptedHolds(w);
    if QueuedId(w).Some? {
      assert QueuedId(w).value in Queued(w);
    }
  }

  lemma DequeueLocal(n: nat, nextId: nat, host: nat, w: Worker, stage: Stage)
    requires LocalOk(n, nextId, host, w, stage) && w.pc.Idle? && w.command.Some?
    ensures w.command.value.Stop? ==>
              LocalOk(n, nextId, host, w.(command := None, pc := Stopped, results := w.results + [None]), stage)
    ensures w.command.value.Run? ==>
              LocalOk(n, nextId, host, w.(command := None, pc := Waiting(w.command.value.id, w.command.value.extras)), stage)
  {
    AcceptedHolds(w);
    if w.command.value.Stop? {
      IdsAppend(w.results, None);
      assert Ids(w.results) + [] == Ids(w.results);
      assert (w.results + [None])[..|w.results|] == w.results;
    } else {
      assert w.command.value.id in Queued(w);
    }
  }

  lemma PublishLocal(n: nat, nextId: nat, host: nat, w: Worker, stage: Stage)
    requires LocalOk(n, nextId, host, w, stage) && w.pc.Executing?
    ensures LocalOk(n, nextId, host,
                    w.(results := w.results + [Some(w.pc.id)], pc := Releasing(w.pc.id, w.pc.extras, 0, false)), stage)
  {
    IdsAppend(w.results, Some(w.pc.id));
    var before := w.collected + Ids(w.results);
    assert w.accepted == before + [w.pc.id] + Queued(w);
    assert w.accepted[|before|] == w.pc.id;
    if Queued(w) != [] {
      assert w.accepted[|before| + 1] == Queued(w)[0];
    }
  }

  lemma CollectLocal(n: nat, nextId: nat, host: nat, w: Worker, stage: Stage)
    requires LocalOk(n, nextId, host, w, stage) && w.results != [] && w.results[0].Some?
    ensures LocalOk(n, nextId, host, Collected(w), stage)
  {
    var c := Collected(w);
    assert w.collected + Ids(w.results) == c.collected + Ids(c.results);
    assert InFlight(c) == InFlight(w) && Queued(c) == Queued(w);
    if stage.Told? && w.pc.Stopped? {
      assert c.results[..|c.results| - 1] == w.results[..|w.results| - 1][1..];
    }
  }

  lemma AddLocal(n: nat, nextId: nat, host: nat, w: Worker, extras: seq<nat>)
    requires LocalOk(n, nextId, host, w, Serving) && w.command.None? && GoodExtras(n, host, extras)
    ensures LocalOk(n, nextId + 1, host, w.(command := Some(Run(nextId, extras)), accepted := w.accepted + [nextId]), Serving)
  {
    assert w.collected + Ids(w.results) + InFlight(w) + [] == w.collected + Ids(w.results) + InFlight(w);
  }

  /** Only the flag and the lock differ, and the lock is not the worker's own in either. */
  predicate SameLocal(a: Worker, b: Worker) {
    b == a.(inUse := b.inUse, lock := b.lock) && a.lock.Own? == b.lock.Own?
  }

  /** The workers that a step does not concern. */
  lemma LocalsFrame(s: State, t: State, w: nat)
    requires LocalsOk(s) && |t.ws| == |s.ws| && CtrlOk(|t.ws|, t.ctrl) && t.nextId >= s.nextId
    requires forall i :: 0 <= i < |s.ws| && i != w ==>
                           SameLocal(s.ws[i], t.ws[i]) && StageOf(t.ctrl, i) == StageOf(s.ctrl, i)
    requires w < |t.ws| ==> LocalOk(|t.ws|, t.nextId, w, t.ws[w], StageOf(t.ctrl, w))
    ensures LocalsOk(t)
  {
    forall i | 0 <= i < |t.ws| ensures LocalOk(|t.ws|, t.nextId, i, t.ws[i], StageOf(t.ctrl, i)) {
      if i != w {
        assert LocalOk(|s.ws|, s.nextId, i, s.ws[i], StageOf(s.ctrl, i));
        assert SameLocal(s.ws[i], t.ws[i]);
      }
    }
  }

  lemma IdsFrame(s: State, t: State)
    requires IdsOk(s) && |t.ws| == |s.ws| && t.nextId == s.nextId
    requires forall i :: 0 <= i < |s.ws| ==> t.ws[i].accepted == s.ws[i].accepted
    ensures IdsOk(t)
  {
    forall id: nat | id < t.nextId ensures Given(t, id) {
      assert Given(s, id);
    }
  }

  lemma IdsExtended(s: State, t: State, c: nat)
    requires IdsOk(s) && LocalsOk(s) && |t.ws| == |s.ws| && t.nextId == s.nextId + 1 && c < |s.ws|
    requires forall i :: 0 <= i < |s.ws| ==>
                           t.ws[i].accepted == s.ws[i].accepted + (if i == c then [s.nextId] else [])
    ensures IdsOk(t)
  {
    forall i | 0 <= i < |s.ws| ensures s.nextId !in s.ws[i].accepted {
      assert LocalOk(|s.ws|, s.nextId, i, s.ws[i], StageOf(s.ctrl, i));
    }
    forall id: nat | id < t.nextId ensures Given(t, id) {
      GivenExtended(s, t, c, id);
    }
  }

  lemma GivenExtended(s: State, t: State, c: nat, id: nat)
    requires |t.ws| == |s.ws| && c < |s.ws| && (id < s.nextId ==> Given(s, id)) && id <= s.nextId
    requires forall i :: 0 <= i < |s.ws| ==>
                           t.ws[i].accepted == s.ws[i].accepted + (if i == c then [s.nextId] else [])
    ensures Given(t, id)
  {
    if id < s.nextId {
      var i :| 0 <= i < |s.ws| && id in s.ws[i].accepted;
      assert id in t.ws[i].accepted;
    } else {
      assert id in t.ws[c].accepted;
    }
  }
}
