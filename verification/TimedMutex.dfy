/**
 * `timed_mutex` and `recursive_timed_mutex`: monitors over an internal mutex and a condition variable, as a
 * step system of any number of threads. Spurious wake-ups and timeouts happen at any time.
 */
module TimedMutex {
  import opened Options

  type Thread = nat

  const UINT_MAX: nat := 0xFFFF_FFFF

  datatype Kind = Timed | Recursive

  datatype Op = Lock | TryLock | TryLockUntil | Unlock

  /**
   * Where a thread is inside an operation. Enter waits for the internal mutex; Body, Test, Leave and
   * LeaveUnlock hold it. Test evaluates the wait predicate, last if the deadline has passed; woken says that the
   * thread comes back from the condition variable. Notify has released the mutex and owes notify_one.
   */
  datatype Pc =
    | Idle
    | Enter(op: Op)
    | Body(op: Op)
    | Test(op: Op, last: bool, woken: bool)
    | Asleep(op: Op)
    | Woken(op: Op)
    | Leave(success: bool)
    | LeaveUnlock(notify: bool)
    | Notify

  /**
   * inner is the holder of `_mutex`; locked and owner are the fields `_locked` and `_owner`. holder is the thread
   * that last acquired the whole mutex, until it is free, and depth counts the acquisitions each thread has made
   * and not yet given back; no code reads these two.
   */
  datatype State = State(kind: Kind, inner: Option<Thread>, locked: nat, owner: Option<Thread>, pcs: map<Thread, Pc>,
                         holder: Option<Thread>, depth: map<Thread, nat>)

  datatype Action =
    | Call(op: Op)
    | Acquire                  // take the internal mutex, at entry or on the way back from a wait
    | Reacquire(expired: bool) // the same on the way back from a wait; expired is what the clock says
    | Run                      // the next step while holding the internal mutex
    | Signal(target: Option<Thread>)    // notify_one, with the sleeper it picks
    | WakeUp                   // a spurious wake-up or a timeout

  predicate HoldsInner(pc: Pc) {
    pc.Body? || pc.Test? || pc.Leave? || pc.LeaveUnlock?
  }

  /** The thread will still notify, or has been woken and will still look at `_locked`. */
  predicate Pending(pc: Pc) {
    pc.Notify? || pc == LeaveUnlock(true) || pc.Woken? || (pc.Test? && pc.woken)
  }

  // The code between acquiring and releasing the internal mutex

  /** `_locked = ...`: the calling thread becomes the owner. */
  function Take(s: State, t: Thread): State
    requires t in s.depth
  {
    s.(locked := if s.kind == Timed then UINT_MAX else 1,
       owner := if s.kind == Timed then s.owner else Some(t),
       holder := Some(t),
       depth := s.depth[t := s.depth[t] + 1],
       pcs := s.pcs[t := Leave(true)])
  }

  function At(s: State, t: Thread, pc: Pc): State {
    s.(pcs := s.pcs[t := pc])
  }

  /** The body of each operation up to its first wait or its end. */
  function RunBody(s: State, t: Thread, op: Op): State
    requires t in s.depth
  {
    if op == Unlock then
      var left := if s.kind == Timed then 0 else if s.locked == 0 then UINT_MAX else s.locked - 1;
      var d := s.depth[t := if s.depth[t] == 0 then 0 else s.depth[t] - 1];
      if left == 0 then
        s.(locked := 0, owner := None, holder := None, depth := d, pcs := s.pcs[t := LeaveUnlock(true)])
      else
        s.(locked := left, depth := d, pcs := s.pcs[t := LeaveUnlock(false)])
    else if s.kind == Recursive && s.owner == Some(t) then
      if s.locked < UINT_MAX then
        s.(locked := s.locked + 1, depth := s.depth[t := s.depth[t] + 1], pcs := s.pcs[t := Leave(true)])
      else At(s, t, Leave(false))
    else if op == TryLock then
      if s.locked != 0 then At(s, t, Leave(false)) else Take(s, t)
    else At(s, t, Test(op, false, false))
  }

  /** One evaluation of the wait predicate; going to sleep releases the internal mutex in the same step. */
  function RunTest(s: State, t: Thread, op: Op, last: bool): State
    requires t in s.depth
  {
    if s.locked == 0 then Take(s, t)
    else if last then At(s, t, Leave(false))
    else At(s, t, Asleep(op)).(inner := None)
  }

  ghost predicate Next(s: State, t: Thread, a: Action, s': State) {
    && t in s.pcs && t in s.depth
    && var pc := s.pcs[t];
      match a
      case Call(op) => pc == Idle && (op == Unlock ==> s.depth[t] > 0) && s' == At(s, t, Enter(op))
      case Acquire => pc.Enter? && s.inner == None && s' == At(s, t, Body(pc.op)).(inner := Some(t))
      case Reacquire(expired) =>
        && pc.Woken? && s.inner == None && (expired ==> pc.op == TryLockUntil)
        && s' == At(s, t, Test(pc.op, expired, true)).(inner := Some(t))
      case Run =>
        (match pc
         case Body(op) => s' == RunBody(s, t, op)
         case Test(op, last, woken) => s' == RunTest(s, t, op, last)
         case Leave(success) => s' == At(s, t, Idle).(inner := None)
         case LeaveUnlock(notify) => s' == At(s, t, if notify then Notify else Idle).(inner := None)
         case _ => false)
      case Signal(target) =>
        && pc.Notify?
        && (match target
            case None => (forall u :: u in s.pcs ==> !s.pcs[u].Asleep?) && s' == At(s, t, Idle)
            case Some(u) => u in s.pcs && s.pcs[u].Asleep? && s' == At(At(s, u, Woken(s.pcs[u].op)), t, Idle))
      case WakeUp => pc.Asleep? && s' == At(s, t, Woken(pc.op))
  }

  // What every reachable state satisfies

  ghost predicate ThreadOk(s: State, t: Thread) {
    && t in s.pcs && t in s.depth
    && (HoldsInner(s.pcs[t]) <==> s.inner == Some(t))
    && s.depth[t] == (if s.holder != Some(t) then 0 else if s.kind == Timed then 1 else s.locked)
    && (match s.pcs[t]
        case Enter(op) => op == Unlock ==> s.depth[t] > 0
        case Body(op) => op == Unlock ==> s.depth[t] > 0
        case Leave(success) => success ==> s.depth[t] > 0
        case Test(op, last, woken) => (op == Lock || op == TryLockUntil) && (last ==> op == TryLockUntil)
        case Asleep(op) => op == Lock || op == TryLockUntil
        case Woken(op) => op == Lock || op == TryLockUntil
        case _ => true)
  }

  ghost predicate LockOk(s: State) {
    && s.locked <= UINT_MAX
    && (s.locked == 0 <==> s.holder == None)
    && (s.kind == Timed && s.locked != 0 ==> s.locked == UINT_MAX)
    && (s.kind == Recursive ==> s.owner == s.holder)
    && (s.holder != None ==> s.holder.value in s.pcs)
  }

  /** With the mutex free and a thread asleep, somebody has yet to notify, or to look again after a wake-up. */
  ghost predicate NoneForgotten(s: State) {
    s.locked == 0 && (exists t :: t in s.pcs && s.pcs[t].Asleep?) ==> exists u :: u in s.pcs && Pending(s.pcs[u])
  }

  ghost predicate Inv(s: State) {
    && (forall t :: t in s.pcs ==> ThreadOk(s, t))
    && LockOk(s) && NoneForgotten(s)
  }

  lemma BodySelf(s: State, t: Thread, op: Op)
    requires LockOk(s) && ThreadOk(s, t) && s.pcs[t] == Body(op)
    ensures ThreadOk(RunBody(s, t, op), t)
  {
  }

  lemma TestSelf(s: State, t: Thread, op: Op, last: bool)
    requires LockOk(s) && ThreadOk(s, t) && s.pcs[t].Test? && s.pcs[t].op == op
    ensures ThreadOk(RunTest(s, t, op, last), t)
  {
  }

  lemma NextSelf(s: State, t: Thread, a: Action, s': State)
    requires Next(s, t, a, s') && LockOk(s) && ThreadOk(s, t)
    ensures ThreadOk(s', t)
  {
    hide RunBody, RunTest, Take;
    if a.Run? && s.pcs[t].Body? { BodySelf(s, t, s.pcs[t].op); }
    if a.Run? && s.pcs[t].Test? { TestSelf(s, t, s.pcs[t].op, s.pcs[t].last); }
  }

  /** Another thread stays where it is, or is woken. */
  lemma OtherPc(s: State, t: Thread, a: Action, s': State, u: Thread)
    requires Next(s, t, a, s') && ThreadOk(s, t) && u in s.pcs && u != t
    ensures u in s'.pcs && (s'.pcs[u] == s.pcs[u] || (s.pcs[u].Asleep? && s'.pcs[u] == Woken(s.pcs[u].op)))
    ensures s'.inner == Some(u) <==> s.inner == Some(u)
  {
    hide LockOk;
  }

  /** Another thread's acquisitions stay what they are. */
  lemma OtherDepth(s: State, t: Thread, a: Action, s': State, u: Thread)
    requires Next(s, t, a, s') && LockOk(s) && ThreadOk(s, t) && u in s.depth && u != t
    ensures u in s'.depth && s'.depth[u] == s.depth[u] && s'.kind == s.kind
    ensures s'.holder == Some(u) <==> s.holder == Some(u)
    ensures s.holder == Some(u) ==> s'.locked == s.locked
  {
  }

  lemma NextOther(s: State, t: Thread, a: Action, s': State, u: Thread)
    requires Next(s, t, a, s') && LockOk(s) && ThreadOk(s, t) && ThreadOk(s, u) && u != t
    ensures ThreadOk(s', u)
  {
    OtherPc(s, t, a, s', u);
    OtherDepth(s, t, a, s', u);
    hide Next, LockOk;
  }

  lemma NextLock(s: State, t: Thread, a: Action, s': State)
    requires Next(s, t, a, s') && LockOk(s) && ThreadOk(s, t)
    ensures LockOk(s') && s'.pcs.Keys == s.pcs.Keys && s'.kind == s.kind
  {
  }

  /**
   * A pending thread stays pending unless its step is the signal; that makes the sleeper it picks pending, or
   * leaves nobody asleep.
   */
  lemma PendingHandedOn(s: State, t: Thread, a: Action, s': State, w: Thread)
    requires Next(s, t, a, s') && LockOk(s) && ThreadOk(s, t) && s.locked == 0 && s'.locked == 0
    requires w in s.pcs && Pending(s.pcs[w])
    ensures w in s'.pcs && (Pending(s'.pcs[w]) || (w == t && a.Signal?))
    ensures a.Signal? && a.target.Some? ==> a.target.value in s'.pcs && Pending(s'.pcs[a.target.value])
    ensures a.Signal? && a.target.None? ==> forall u :: u in s'.pcs ==> !s'.pcs[u].Asleep?
  {
  }

  lemma NextPending(s: State, t: Thread, a: Action, s': State)
    requires Next(s, t, a, s') && LockOk(s) && ThreadOk(s, t) && NoneForgotten(s)
    ensures NoneForgotten(s')
  {
    if s'.locked == 0 && exists v :: v in s'.pcs && s'.pcs[v].Asleep? {
      var v :| v in s'.pcs && s'.pcs[v].Asleep?;
      if s.locked != 0 {
        assert Pending(s'.pcs[t]);
      } else if a.Signal? {
        assert s.pcs[v].Asleep?;
        assert Pending(s'.pcs[a.target.value]);
      } else {
        assert s.pcs[v].Asleep?;
        var w :| w in s.pcs && Pending(s.pcs[w]);
        hide Next, Pending;
        PendingHandedOn(s, t, a, s', w);
      }
    }
  }

  lemma NextKeepsInv(s: State, t: Thread, a: Action, s': State)
    requires Next(s, t, a, s') && Inv(s)
    ensures Inv(s')
  {
    hide Next, ThreadOk, LockOk, NoneForgotten;
    NextStays(s, t, a, s');
    assert ThreadOk(s, t);
    NextLock(s, t, a, s');
    NextPending(s, t, a, s');
    forall u | u in s'.pcs ensures ThreadOk(s', u) {
      if u == t { NextSelf(s, t, a, s'); } else { NextOther(s, t, a, s', u); }
    }
  }

  lemma NextStays(s: State, t: Thread, a: Action, s': State)
    requires Next(s, t, a, s')
    ensures t in s.pcs && s'.pcs.Keys == s.pcs.Keys && s'.kind == s.kind
  {
  }

  // Runs

  ghost predicate Initial(s: State) {
    && s.inner == None && s.locked == 0 && s.owner == None && s.holder == None
    && s.depth.Keys == s.pcs.Keys && forall t :: t in s.pcs ==> s.pcs[t] == Idle && s.depth[t] == 0
  }

  ghost predicate Steps(s: State, s': State) {
    exists t, a :: Next(s, t, a, s')
  }

  ghost predicate IsRun(run: seq<State>) {
    run != [] && Initial(run[0]) && forall i :: 0 < i < |run| ==> Steps(run[i - 1], run[i])
  }

  lemma {:induction false} RunKeepsInv(run: seq<State>, i: nat)
    requires IsRun(run) && i < |run|
    ensures Inv(run[i])
  {
    if i > 0 {
      RunKeepsInv(run, i - 1);
      var t, a :| Next(run[i - 1], t, a, run[i]);
      NextKeepsInv(run[i - 1], t, a, run[i]);
    }
  }

  /** At most one thread owns the mutex, in every state of every run. */
  lemma MutualExclusion(run: seq<State>, i: nat, t: Thread, u: Thread)
    requires IsRun(run) && i < |run| && t in run[i].pcs && u in run[i].pcs
    ensures t in run[i].depth && u in run[i].depth && (run[i].depth[t] > 0 && run[i].depth[u] > 0 ==> t == u)
  {
    RunKeepsInv(run, i);
    assert ThreadOk(run[i], t) && ThreadOk(run[i], u);
  }

  /** `_locked` is the number of acquisitions its owner has outstanding, and `_owner` is set exactly meanwhile. */
  lemma LockedCountsAcquisitions(run: seq<State>, i: nat, t: Thread)
    requires IsRun(run) && i < |run| && t in run[i].pcs && run[i].kind == Recursive
    ensures t in run[i].depth && run[i].depth[t] == if run[i].owner == Some(t) then run[i].locked else 0
    ensures run[i].owner == None <==> run[i].locked == 0
  {
    RunKeepsInv(run, i);
    assert ThreadOk(run[i], t);
  }

  /** An acquisition that reports success leaves the caller the owner. */
  lemma SuccessOwns(run: seq<State>, i: nat, t: Thread)
    requires IsRun(run) && i < |run| && t in run[i].pcs && run[i].pcs[t] == Leave(true)
    ensures run[i].locked > 0 && run[i].holder == Some(t)
  {
    RunKeepsInv(run, i);
    assert ThreadOk(run[i], t);
  }

  /** No lost wake-up. */
  lemma NoLostWakeUp(run: seq<State>, i: nat, t: Thread)
    requires IsRun(run) && i < |run| && run[i].locked == 0 && t in run[i].pcs && run[i].pcs[t].Asleep?
    ensures exists u :: u in run[i].pcs && Pending(run[i].pcs[u])
  {
    RunKeepsInv(run, i);
  }

  /** Steps the program takes by itself: no new call, no spurious wake-up, no timeout. */
  ghost predicate CanProceed(s: State, t: Thread) {
    exists a, s' :: Next(s, t, a, s') && !a.Call? && !a.WakeUp?
  }

  lemma ProceedWitness(s: State, t: Thread, a: Action, s': State)
    requires Next(s, t, a, s') && !a.Call? && !a.WakeUp?
    ensures CanProceed(s, t)
  {
  }

  lemma HolderProceeds(s: State, t: Thread)
    requires ThreadOk(s, t) && s.inner == Some(t)
    ensures CanProceed(s, t)
  {
    var s' := match s.pcs[t]
      case Body(op) => RunBody(s, t, op)
      case Test(op, last, woken) => RunTest(s, t, op, last)
      case Leave(success) => At(s, t, Idle).(inner := None)
      case LeaveUnlock(notify) => At(s, t, if notify then Notify else Idle).(inner := None)
      case _ => s;
    assert Next(s, t, Run, s');
  }

  lemma PendingProceeds(s: State, t: Thread)
    requires ThreadOk(s, t) && Pending(s.pcs[t]) && (s.inner == None || s.pcs[t].Notify?)
    ensures CanProceed(s, t)
  {
    if s.pcs[t].Woken? {
      ProceedWitness(s, t, Reacquire(false), At(s, t, Test(s.pcs[t].op, false, true)).(inner := Some(t)));
    } else if exists u :: u in s.pcs && s.pcs[u].Asleep? {
      var u :| u in s.pcs && s.pcs[u].Asleep?;
      ProceedWitness(s, t, Signal(Some(u)), At(At(s, u, Woken(s.pcs[u].op)), t, Idle));
    } else {
      ProceedWitness(s, t, Signal(None), At(s, t, Idle));
    }
  }

  /**
   * With the mutex free and a thread asleep, the holder of the internal mutex can proceed without any new call,
   * timeout or luck; if there is none, a thread that has yet to notify or to look again can.
   */
  lemma FreeMutexIsNotStuck(run: seq<State>, i: nat, t: Thread)
    requires IsRun(run) && i < |run| && run[i].locked == 0 && t in run[i].pcs && run[i].pcs[t].Asleep?
    ensures run[i].inner.Some? ==> CanProceed(run[i], run[i].inner.value)
    ensures run[i].inner.None? ==> exists u :: u in run[i].pcs && Pending(run[i].pcs[u]) && CanProceed(run[i], u)
  {
    var s := run[i];
    InnerHolder(run, i);
    NoLostWakeUp(run, i, t);
    RunKeepsInv(run, i);
    if s.inner != None {
      HolderProceeds(s, s.inner.value);
    } else {
      var u :| u in s.pcs && Pending(s.pcs[u]);
      PendingProceeds(s, u);
    }
  }

  /** The internal mutex is only ever held by a thread of the system. */
  lemma {:induction false} InnerHolder(run: seq<State>, i: nat)
    requires IsRun(run) && i < |run|
    ensures run[i].inner != None ==> run[i].inner.value in run[i].pcs
  {
    if i > 0 {
      InnerHolder(run, i - 1);
      var t, a :| Next(run[i - 1], t, a, run[i]);
      InnerStays(run[i - 1], t, a, run[i]);
    }
  }

  lemma InnerStays(s: State, t: Thread, a: Action, s': State)
    requires Next(s, t, a, s') && (s.inner != None ==> s.inner.value in s.pcs)
    ensures s'.inner != None ==> s'.inner.value in s'.pcs
  {
  }
}
