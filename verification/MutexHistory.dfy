/** The timed mutexes against the history of a run: what each thread has taken and given back, and what calls do. */
module MutexHistory {
  import opened Options
  import opened TimedMutex

  // Counting, from where the threads stand alone

  predicate Stands(s: State, t: Thread, pc: Pc) {
    t in s.pcs && s.pcs[t] == pc
  }

  /** From s to s' an acquisition of t succeeds. */
  predicate Acquires(s: State, t: Thread, s': State) {
    Stands(s', t, Leave(true)) && !Stands(s, t, Leave(true))
  }

  /** From s to s' thread t runs the body of `unlock`. */
  predicate GivesBack(s: State, t: Thread, s': State) {
    Stands(s, t, Body(Unlock)) && !Stands(s', t, Body(Unlock))
  }

  ghost function Acquired(run: seq<State>, t: Thread, i: nat): nat
    requires i < |run|
  {
    if i == 0 then 0 else Acquired(run, t, i - 1) + if Acquires(run[i - 1], t, run[i]) then 1 else 0
  }

  ghost function Unlocked(run: seq<State>, t: Thread, i: nat): nat
    requires i < |run|
  {
    if i == 0 then 0 else Unlocked(run, t, i - 1) + if GivesBack(run[i - 1], t, run[i]) then 1 else 0
  }

  /** The acquisitions t has made and not given back. */
  ghost function Outstanding(run: seq<State>, t: Thread, i: nat): int
    requires i < |run|
  {
    Acquired(run, t, i) - Unlocked(run, t, i)
  }

  lemma OutstandingNext(run: seq<State>, t: Thread, i: nat)
    requires i + 1 < |run|
    ensures Outstanding(run, t, i + 1) == Outstanding(run, t, i)
      + (if Acquires(run[i], t, run[i + 1]) then 1 else 0) - (if GivesBack(run[i], t, run[i + 1]) then 1 else 0)
  {
  }

  lemma OwnDepth(s: State, t: Thread, a: Action, s': State)
    requires Next(s, t, a, s') && LockOk(s) && ThreadOk(s, t)
    ensures t in s'.depth && s'.depth[t] ==
      s.depth[t] + (if Acquires(s, t, s') then 1 else 0) - (if GivesBack(s, t, s') then 1 else 0)
  {
  }

  lemma StepDepth(s: State, u: Thread, a: Action, s': State, t: Thread)
    requires Next(s, u, a, s') && Inv(s) && t in s.pcs
    ensures t in s.depth && t in s'.depth && s'.depth[t] ==
      s.depth[t] + (if Acquires(s, t, s') then 1 else 0) - (if GivesBack(s, t, s') then 1 else 0)
  {
    assert u in s.pcs by { NextStays(s, u, a, s'); }
    assert ThreadOk(s, u) && ThreadOk(s, t);
    hide Next, LockOk, Inv;
    if u == t {
      OwnDepth(s, t, a, s');
    } else {
      OtherPc(s, u, a, s', t);
      OtherDepth(s, u, a, s', t);
    }
  }

  lemma {:induction false} DepthIsOutstanding(run: seq<State>, i: nat, t: Thread)
    requires IsRun(run) && i < |run| && t in run[i].pcs
    ensures t in run[i].depth && run[i].depth[t] == Outstanding(run, t, i)
  {
    RunKeepsInv(run, i);
    hide Next, LockOk, ThreadOk;
    if i == 0 {
      assert Initial(run[0]);
    } else {
      RunKeepsInv(run, i - 1);
      var u, a :| Next(run[i - 1], u, a, run[i]);
      NextStays(run[i - 1], u, a, run[i]);
      DepthIsOutstanding(run, i - 1, t);
      StepDepth(run[i - 1], u, a, run[i], t);
      OutstandingNext(run, t, i - 1);
    }
  }

  /** `_locked` is what its owner has acquired and not given back, and `_owner` is set exactly meanwhile. */
  lemma LockedCountsHistory(run: seq<State>, i: nat, t: Thread)
    requires IsRun(run) && i < |run| && t in run[i].pcs && run[i].kind == Recursive
    ensures Outstanding(run, t, i) == if run[i].owner == Some(t) then run[i].locked else 0
    ensures run[i].owner == None <==> run[i].locked == 0
    ensures run[i].locked <= UINT_MAX
  {
    RunKeepsInv(run, i);
    DepthIsOutstanding(run, i, t);
    LockedCountsAcquisitions(run, i, t);
  }

  /** A thread has a `timed_mutex` once or not at all, ... */
  lemma AtLeastNone(run: seq<State>, i: nat, t: Thread)
    requires IsRun(run) && i < |run| && t in run[i].pcs
    ensures 0 <= Outstanding(run, t, i)
    ensures run[i].kind == Timed ==> Outstanding(run, t, i) <= 1
  {
    RunKeepsInv(run, i);
    DepthIsOutstanding(run, i, t);
    assert ThreadOk(run[i], t);
  }

  /** ... either mutex is free just when nobody has it, ... */
  lemma FreeIffNobodyHas(run: seq<State>, i: nat)
    requires IsRun(run) && i < |run|
    ensures run[i].locked == 0 <==> forall t :: t in run[i].pcs ==> Outstanding(run, t, i) == 0
  {
    RunKeepsInv(run, i);
    hide *;
    forall t | t in run[i].pcs
      ensures run[i].locked == 0 ==> Outstanding(run, t, i) == 0
      ensures run[i].holder == Some(t) && run[i].locked != 0 ==> Outstanding(run, t, i) != 0
    {
      DepthIsOutstanding(run, i, t);
      HolderDepth(run[i], t);
    }
    HolderKnown(run[i]);
  }

  lemma HolderDepth(s: State, t: Thread)
    requires Inv(s) && t in s.pcs
    ensures t in s.depth && (s.locked == 0 ==> s.depth[t] == 0)
    ensures s.holder == Some(t) && s.locked != 0 ==> s.depth[t] != 0
  {
    assert ThreadOk(s, t);
  }

  lemma HolderKnown(s: State)
    requires Inv(s)
    ensures s.locked != 0 ==> s.holder.Some? && s.holder.value in s.pcs
  {
  }

  /** ... and at most one thread has it. */
  lemma OneHolder(run: seq<State>, i: nat, t: Thread, u: Thread)
    requires IsRun(run) && i < |run| && t in run[i].pcs && u in run[i].pcs
    requires Outstanding(run, t, i) > 0 && Outstanding(run, u, i) > 0
    ensures t == u
  {
    DepthIsOutstanding(run, i, t);
    DepthIsOutstanding(run, i, u);
    MutualExclusion(run, i, t, u);
  }

  // Calls

  /** t could take the mutex in state i: nobody has it, or it is recursive and t has it, but not UINT_MAX times. */
  ghost predicate Available(run: seq<State>, t: Thread, i: nat)
    requires i < |run|
  {
    || (forall u :: u in run[i].pcs ==> Outstanding(run, u, i) == 0)
    || (run[i].kind == Recursive && 0 < Outstanding(run, t, i) < UINT_MAX)
  }

  /** What the fields say of it. */
  lemma AvailableFields(run: seq<State>, t: Thread, i: nat)
    requires IsRun(run) && i < |run| && t in run[i].pcs
    ensures Available(run, t, i) <==>
      run[i].locked == 0 || (run[i].kind == Recursive && run[i].owner == Some(t) && run[i].locked < UINT_MAX)
  {
    FreeIffNobodyHas(run, i);
    if run[i].kind == Recursive { LockedCountsHistory(run, i, t); }
  }

  /** From state i to state j thread t is inside one call. */
  ghost predicate InCall(run: seq<State>, t: Thread, i: nat, j: nat) {
    i <= j < |run| && forall k :: i <= k <= j ==> t in run[k].pcs && run[k].pcs[t] != Idle
  }

  /** t called op in step i and is inside that call in state j. */
  ghost predicate Called(run: seq<State>, t: Thread, op: Op, i: nat, j: nat) {
    i < j < |run| && InCall(run, t, i + 1, j) && Next(run[i], t, Call(op), run[i + 1])
  }

  /** ... and is back from it in state j + 1. */
  ghost predicate Completed(run: seq<State>, t: Thread, op: Op, i: nat, j: nat) {
    j + 1 < |run| && Called(run, t, op, i, j) && Stands(run[j + 1], t, Idle)
  }

  /** A recursive mutex the caller already has as often as can be counted. */
  ghost predicate Exhausted(run: seq<State>, t: Thread, i: nat)
    requires i < |run|
  {
    run[i].kind == Recursive && Outstanding(run, t, i) == UINT_MAX
  }

  predicate Deciding(pc: Pc, op: Op) {
    (pc.Body? || pc.Test?) && pc.op == op
  }

  predicate Waiting(pc: Pc) {
    pc.Test? || pc.Asleep? || pc.Woken?
  }

  /** In step b thread t finishes the body of op: what it then reports, or owes, and why. */
  ghost predicate Decided(run: seq<State>, t: Thread, op: Op, b: nat) {
    && b + 1 < |run| && t in run[b].pcs && t in run[b + 1].pcs && Deciding(run[b].pcs[t], op)
    && (match run[b + 1].pcs[t]
        case Leave(success) =>
          && op != Unlock && (success <==> Available(run, t, b))
          && (op == TryLock ==> run[b].pcs[t].Body?)
          && (!success && op == Lock ==> Exhausted(run, t, b))
          && (!success && op == TryLockUntil ==> Exhausted(run, t, b) || (run[b].pcs[t].Test? && run[b].pcs[t].last))
          && Outstanding(run, t, b + 1) == Outstanding(run, t, b) + (if success then 1 else 0)
        case LeaveUnlock(notify) =>
          && op == Unlock && (notify <==> Outstanding(run, t, b + 1) == 0)
          && Outstanding(run, t, b + 1) == Outstanding(run, t, b) - 1
        case _ => false)
  }

  /** The same of one step, in terms of the fields. */
  ghost predicate DecidedFields(s: State, t: Thread, op: Op, s': State) {
    && t in s.pcs && t in s'.pcs && t in s.depth && t in s'.depth
    && var free := s.locked == 0 || (s.kind == Recursive && s.owner == Some(t) && s.locked < UINT_MAX);
       var full := s.kind == Recursive && s.owner == Some(t) && s.locked == UINT_MAX;
      match s'.pcs[t]
      case Leave(success) =>
        && op != Unlock && (success <==> free) && (op == TryLock ==> s.pcs[t].Body?)
        && (!success && op == Lock ==> full)
        && (!success && op == TryLockUntil ==> full || (s.pcs[t].Test? && s.pcs[t].last))
      case LeaveUnlock(notify) => op == Unlock && (notify <==> s'.depth[t] == 0)
      case _ => false
  }

  predicate Finished(pc: Pc) {
    pc.Leave? || pc.LeaveUnlock?
  }

  lemma BodyDecides(s: State, t: Thread, op: Op, s': State)
    requires LockOk(s) && ThreadOk(s, t) && s.pcs[t] == Body(op) && s' == RunBody(s, t, op) && Finished(s'.pcs[t])
    ensures DecidedFields(s, t, op, s')
  {
  }

  lemma TestDecides(s: State, t: Thread, op: Op, s': State)
    requires LockOk(s) && ThreadOk(s, t) && s.pcs[t].Test? && s.pcs[t].op == op
    requires s' == RunTest(s, t, op, s.pcs[t].last) && Finished(s'.pcs[t])
    requires !(s.kind == Recursive && s.owner == Some(t))
    ensures DecidedFields(s, t, op, s')
  {
  }

  lemma StepDecides(s: State, t: Thread, op: Op, a: Action, s': State)
    requires Next(s, t, a, s') && Inv(s) && Deciding(s.pcs[t], op) && t in s'.pcs && Finished(s'.pcs[t])
    requires s.pcs[t].Test? ==> !(s.kind == Recursive && s.owner == Some(t))
    ensures DecidedFields(s, t, op, s')
  {
    assert ThreadOk(s, t) && LockOk(s);
    hide DecidedFields, RunBody, RunTest, LockOk, ThreadOk, Inv;
    if s.pcs[t].Body? { BodyDecides(s, t, op, s'); } else { TestDecides(s, t, op, s'); }
  }

  lemma RunDecides(run: seq<State>, t: Thread, op: Op, b: nat, a: Action)
    requires IsRun(run) && b + 1 < |run| && Next(run[b], t, a, run[b + 1]) && Deciding(run[b].pcs[t], op)
    requires t in run[b + 1].pcs && Finished(run[b + 1].pcs[t])
    requires run[b].pcs[t].Test? ==> !(run[b].kind == Recursive && Outstanding(run, t, b) > 0)
    ensures Decided(run, t, op, b)
  {
    RunKeepsInv(run, b);
    hide Next, Inv;
    if run[b].kind == Recursive { LockedCountsHistory(run, b, t); }
    if run[b].kind == Recursive && run[b].owner == Some(t) { OwnerHasSome(run[b], t); }
    StepDecides(run[b], t, op, a, run[b + 1]);
    AvailableFields(run, t, b);
    DepthIsOutstanding(run, b + 1, t);
    OutstandingNext(run, t, b);
    hide Outstanding, Available, IsRun;
  }

  lemma OwnerHasSome(s: State, t: Thread)
    requires Inv(s) && s.kind == Recursive && s.owner == Some(t)
    ensures s.locked > 0
  {
  }

  /** The stages of a call. */
  lemma Stages(s: State, t: Thread, a: Action, s': State)
    requires Next(s, t, a, s') && Inv(s) && t in s.pcs && s.pcs[t] != Idle && t in s'.pcs && s'.pcs[t] != Idle
    ensures s'.kind == s.kind
    ensures var pc, pc' := s.pcs[t], s'.pcs[t];
      match pc
      case Enter(op) => pc' == Body(op)
      case Body(op) =>
        || Finished(pc')
        || (pc' == Test(op, false, false) && !(s.kind == Recursive && s.owner == Some(t))
            && (op == Lock || op == TryLockUntil))
      case Test(op, _, _) => Finished(pc') || pc' == Asleep(op)
      case Asleep(op) => pc' == Woken(op)
      case Woken(op) => pc'.Test? && pc'.op == op
      case LeaveUnlock(notify) => notify && pc' == Notify
      case _ => false
  {
    assert ThreadOk(s, t);
  }

  /** Step b decided the call; since then t has at most come to its notification. */
  ghost predicate CallEnded(run: seq<State>, t: Thread, op: Op, i: nat, j: nat, b: nat) {
    && i < b < j < |run| && Decided(run, t, op, b) && run[b].kind == run[i].kind && t in run[j].pcs
    && Outstanding(run, t, b) == Outstanding(run, t, i) && Outstanding(run, t, j) == Outstanding(run, t, b + 1)
    && (if run[j].pcs[t].Notify? then run[b + 1].pcs[t] == LeaveUnlock(true) else run[b + 1].pcs[t] == run[j].pcs[t])
  }

  /** Where a call of op begun in step i stands in state j; after the body, step b was the one that decided. */
  ghost predicate CallAt(run: seq<State>, t: Thread, op: Op, i: nat, j: nat, b: nat) {
    && i < j < |run| && t in run[j].pcs && run[j].kind == run[i].kind
    && var pc, n := run[j].pcs[t], Outstanding(run, t, i);
      match pc
      case Idle => false
      case Enter(o) => o == op && Outstanding(run, t, j) == n
      case Body(o) => o == op && Outstanding(run, t, j) == n
      case Test(o, _, _) => o == op && Outstanding(run, t, j) == n && MayWait(run, t, op, i)
      case Asleep(o) => o == op && Outstanding(run, t, j) == n && MayWait(run, t, op, i)
      case Woken(o) => o == op && Outstanding(run, t, j) == n && MayWait(run, t, op, i)
      case _ => CallEnded(run, t, op, i, j, b)
  }

  ghost predicate MayWait(run: seq<State>, t: Thread, op: Op, i: nat)
    requires i < |run|
  {
    (op == Lock || op == TryLockUntil) && !(run[i].kind == Recursive && Outstanding(run, t, i) > 0)
  }

  lemma CallFinishes(run: seq<State>, t: Thread, op: Op, i: nat, j: nat, b: nat, a: Action)
    requires IsRun(run) && j + 1 < |run| && CallAt(run, t, op, i, j, b) && Deciding(run[j].pcs[t], op)
    requires Next(run[j], t, a, run[j + 1]) && t in run[j + 1].pcs && Finished(run[j + 1].pcs[t])
    ensures CallAt(run, t, op, i, j + 1, j)
  {
    NextStays(run[j], t, a, run[j + 1]);
    hide Next, Outstanding, IsRun, Decided;
    RunDecides(run, t, op, j, a);
  }

  lemma CallOwnStep(run: seq<State>, t: Thread, op: Op, i: nat, j: nat, b: nat, a: Action) returns (b': nat)
    requires IsRun(run) && j + 1 < |run| && CallAt(run, t, op, i, j, b)
    requires Next(run[j], t, a, run[j + 1]) && t in run[j + 1].pcs && run[j + 1].pcs[t] != Idle
    ensures CallAt(run, t, op, i, j + 1, b')
  {
    hide Next, Inv, Decided, Outstanding;
    RunKeepsInv(run, j);
    Stages(run[j], t, a, run[j + 1]);
    if Deciding(run[j].pcs[t], op) && Finished(run[j + 1].pcs[t]) {
      hide *;
      CallFinishes(run, t, op, i, j, b, a);
      b' := j;
    } else {
      b' := b;
      OutstandingNext(run, t, j);
      if run[j].kind == Recursive { LockedCountsHistory(run, j, t); }
      hide IsRun;
    }
  }

  lemma CallOtherStep(run: seq<State>, t: Thread, op: Op, i: nat, j: nat, b: nat, u: Thread, a: Action)
    requires IsRun(run) && j + 1 < |run| && CallAt(run, t, op, i, j, b)
    requires Next(run[j], u, a, run[j + 1]) && u != t
    ensures CallAt(run, t, op, i, j + 1, b)
  {
    hide Next, ThreadOk, Outstanding, IsRun, Decided;
    RunKeepsInv(run, j);
    NextStays(run[j], u, a, run[j + 1]);
    assert ThreadOk(run[j], u);
    OtherPc(run[j], u, a, run[j + 1], t);
    OutstandingNext(run, t, j);
  }

  lemma CallStep(run: seq<State>, t: Thread, op: Op, i: nat, j: nat, b: nat) returns (b': nat)
    requires IsRun(run) && j + 1 < |run| && CallAt(run, t, op, i, j, b)
    requires t in run[j + 1].pcs && run[j + 1].pcs[t] != Idle
    ensures CallAt(run, t, op, i, j + 1, b')
  {
    hide Next, CallAt;
    var u, a :| Next(run[j], u, a, run[j + 1]);
    if u == t {
      InCallAt(run, t, op, i, j, b);
      b' := CallOwnStep(run, t, op, i, j, b, a);
    } else {
      b' := b;
      CallOtherStep(run, t, op, i, j, b, u, a);
    }
  }

  lemma InCallAt(run: seq<State>, t: Thread, op: Op, i: nat, j: nat, b: nat)
    requires CallAt(run, t, op, i, j, b)
    ensures t in run[j].pcs && run[j].pcs[t] != Idle
  {
  }

  lemma CallBegins(run: seq<State>, t: Thread, op: Op, i: nat)
    requires i + 1 < |run| && Next(run[i], t, Call(op), run[i + 1])
    ensures CallAt(run, t, op, i, i + 1, 0)
  {
    OutstandingNext(run, t, i);
    hide Outstanding;
  }

  lemma {:induction false} CallHistory(run: seq<State>, t: Thread, op: Op, i: nat, j: nat) returns (b: nat)
    requires IsRun(run) && Called(run, t, op, i, j)
    ensures CallAt(run, t, op, i, j, b)
    decreases j
  {
    hide Next, CallAt, IsRun;
    if j == i + 1 {
      b := 0;
      CallBegins(run, t, op, i);
    } else {
      b := CallHistory(run, t, op, i, j - 1);
      b := CallStep(run, t, op, i, j - 1, b);
    }
  }

  lemma EndedCallAt(run: seq<State>, t: Thread, op: Op, i: nat, j: nat, b: nat)
    requires CallAt(run, t, op, i, j, b) && (Finished(run[j].pcs[t]) || run[j].pcs[t].Notify?)
    ensures CallEnded(run, t, op, i, j, b)
  {
  }

  lemma BackToIdle(s: State, u: Thread, a: Action, s': State, t: Thread)
    requires Next(s, u, a, s') && ThreadOk(s, u) && t in s.pcs && s.pcs[t] != Idle && Stands(s', t, Idle)
    ensures s.pcs[t].Leave? || s.pcs[t] == LeaveUnlock(false) || (u == t && s.pcs[t].Notify? && a.Signal?)
  {
  }

  /** The last step of a call leaves the counts as they are; if it is a notification, it is given. */
  lemma LastStep(run: seq<State>, t: Thread, op: Op, i: nat, j: nat) returns (b: nat)
    requires IsRun(run) && Completed(run, t, op, i, j)
    ensures CallEnded(run, t, op, i, j, b) && Outstanding(run, t, j + 1) == Outstanding(run, t, j)
    ensures run[j].pcs[t].Leave? || run[j].pcs[t] == LeaveUnlock(false) ||
            (run[j].pcs[t].Notify? && Signals(run[j], t, run[j + 1]))
  {
    b := CallHistory(run, t, op, i, j);
    hide Next, CallAt;
    var u, a :| Next(run[j], u, a, run[j + 1]);
    RunKeepsInv(run, j);
    OutstandingNext(run, t, j);
    assert ThreadOk(run[j], u) by { NextStays(run[j], u, a, run[j + 1]); }
    BackToIdle(run[j], u, a, run[j + 1], t);
    EndedCallAt(run, t, op, i, j, b);
    hide Inv, ThreadOk, Outstanding, CallEnded;
  }

  ghost predicate Signals(s: State, t: Thread, s': State) {
    exists target :: Next(s, t, Signal(target), s')
  }

  ghost predicate OthersHaveNone(run: seq<State>, t: Thread, i: nat)
    requires i < |run|
  {
    forall u :: u in run[i].pcs && u != t ==> Outstanding(run, u, i) == 0
  }

  lemma OnlyHolder(run: seq<State>, t: Thread, i: nat)
    requires IsRun(run) && i < |run| && t in run[i].pcs && Outstanding(run, t, i) > 0
    ensures OthersHaveNone(run, t, i)
  {
    hide IsRun, Outstanding;
    forall u | u in run[i].pcs && u != t ensures Outstanding(run, u, i) == 0 {
      AtLeastNone(run, i, u);
      if Outstanding(run, u, i) > 0 { OneHolder(run, i, t, u); }
    }
  }

  lemma ExhaustedIsNotAvailable(run: seq<State>, t: Thread, i: nat)
    requires i < |run| && t in run[i].pcs && Exhausted(run, t, i)
    ensures !Available(run, t, i)
  {
    hide Outstanding;
  }

  lemma LockEnds(run: seq<State>, t: Thread, i: nat, j: nat, b: nat)
    requires CallEnded(run, t, Lock, i, j, b)
    ensures run[j].pcs[t] == Leave(!Exhausted(run, t, i))
    ensures Outstanding(run, t, j) == Outstanding(run, t, i) + (if Exhausted(run, t, i) then 0 else 1)
  {
    hide Outstanding, Available;
    if Exhausted(run, t, b) { ExhaustedIsNotAvailable(run, t, b); }
  }

  lemma LockCounts(run: seq<State>, t: Thread, i: nat, j: nat)
    requires IsRun(run) && Completed(run, t, Lock, i, j)
    ensures run[j].pcs[t] == Leave(!Exhausted(run, t, i))
    ensures Outstanding(run, t, j + 1) == Outstanding(run, t, i) + (if Exhausted(run, t, i) then 0 else 1)
  {
    hide Outstanding, CallEnded, Exhausted, Signals, IsRun, Next;
    var b := LastStep(run, t, Lock, i, j);
    LockEnds(run, t, i, j, b);
  }

  lemma CallerKnown(run: seq<State>, t: Thread, op: Op, i: nat, j: nat)
    requires Completed(run, t, op, i, j)
    ensures i < j && j + 1 < |run| && t in run[i].pcs && t in run[j + 1].pcs
  {
  }

  lemma LockHas(run: seq<State>, t: Thread, i: nat, j: nat)
    requires IsRun(run) && i < |run| && j < |run| && t in run[i].pcs
    requires Outstanding(run, t, j) == Outstanding(run, t, i) + (if Exhausted(run, t, i) then 0 else 1)
    ensures Outstanding(run, t, j) > 0
  {
    hide Outstanding;
    AtLeastNone(run, i, t);
  }

  /**
   * `lock()` returns having taken the mutex once more, and nobody else has it; the one exception is a recursive
   * mutex that the caller already has UINT_MAX times, and then nothing is taken.
   */
  lemma LockOutcome(run: seq<State>, t: Thread, i: nat, j: nat)
    requires IsRun(run) && Completed(run, t, Lock, i, j)
    ensures run[j].pcs[t] == Leave(!Exhausted(run, t, i))
    ensures Outstanding(run, t, j + 1) == Outstanding(run, t, i) + (if Exhausted(run, t, i) then 0 else 1)
    ensures OthersHaveNone(run, t, j + 1)
  {
    hide *;
    CallerKnown(run, t, Lock, i, j);
    LockCounts(run, t, i, j);
    LockHas(run, t, i, j + 1);
    OnlyHolder(run, t, j + 1);
  }

  /**
   * `try_lock()` takes the mutex once more, and says so, just when nobody has it or it is recursive and the caller
   * has it, but not UINT_MAX times; it never sleeps.
   */
  lemma TryLockOutcome(run: seq<State>, t: Thread, i: nat, j: nat) returns (b: nat)
    requires IsRun(run) && Completed(run, t, TryLock, i, j)
    ensures i < b < j && run[b].pcs[t] == Body(TryLock) && run[j].pcs[t] == Leave(Available(run, t, b))
    ensures Outstanding(run, t, j + 1) == Outstanding(run, t, i) + (if Available(run, t, b) then 1 else 0)
    ensures forall k :: i < k <= j ==> t in run[k].pcs && !Waiting(run[k].pcs[t])
  {
    b := LastStep(run, t, TryLock, i, j);
    hide Outstanding, Available, Next, IsRun;
    forall k | i < k <= j ensures t in run[k].pcs && !Waiting(run[k].pcs[t]) {
      NeverSleeps(run, t, i, k);
    }
  }

  lemma NeverSleeps(run: seq<State>, t: Thread, i: nat, k: nat)
    requires IsRun(run) && Called(run, t, TryLock, i, k)
    ensures !Waiting(run[k].pcs[t])
  {
    var b := CallHistory(run, t, TryLock, i, k);
    hide Outstanding, Next, IsRun;
  }

  /** What t evaluates next is the wait predicate, after its deadline in step r. */
  ghost predicate Expired(run: seq<State>, t: Thread, r: nat, b: nat) {
    && r < b < |run| && Next(run[r], t, Reacquire(true), run[r + 1])
    && forall k :: r < k <= b ==> t in run[k].pcs && run[k].pcs[t] == Test(TryLockUntil, true, true)
  }

  lemma {:induction false} LastTestIsExpired(run: seq<State>, t: Thread, b: nat) returns (r: nat)
    requires IsRun(run) && b < |run| && t in run[b].pcs && run[b].pcs[t].Test? && run[b].pcs[t].last
    ensures Expired(run, t, r, b)
    decreases b
  {
    hide Next, Inv;
    assert b > 0 by { assert Initial(run[0]); }
    var u, a :| Next(run[b - 1], u, a, run[b]);
    RunKeepsInv(run, b - 1);
    LastBegins(run[b - 1], u, a, run[b], t);
    if run[b - 1].pcs[t] != run[b].pcs[t] {
      r := b - 1;
    } else {
      r := LastTestIsExpired(run, t, b - 1);
    }
  }

  lemma LastBegins(s: State, u: Thread, a: Action, s': State, t: Thread)
    requires Next(s, u, a, s') && Inv(s) && t in s'.pcs && s'.pcs[t].Test? && s'.pcs[t].last
    ensures t in s.pcs
    ensures s'.pcs[t] == s.pcs[t] || (u == t && a == Reacquire(true) && s'.pcs[t] == Test(TryLockUntil, true, true))
  {
    assert ThreadOk(s, t) by { NextStays(s, u, a, s'); }
  }

  /**
   * `try_lock_until()` takes the mutex once more, and says so, just when it was available as the call last looked;
   * it gives up only on a recursive mutex that the caller already has UINT_MAX times, or after the deadline.
   */
  lemma TryLockUntilOutcome(run: seq<State>, t: Thread, i: nat, j: nat) returns (b: nat)
    requires IsRun(run) && Completed(run, t, TryLockUntil, i, j)
    ensures i < b < j && run[j].pcs[t] == Leave(Available(run, t, b))
    ensures Outstanding(run, t, j + 1) == Outstanding(run, t, i) + (if Available(run, t, b) then 1 else 0)
    ensures !Available(run, t, b) ==> Exhausted(run, t, i) || exists r :: Expired(run, t, r, b)
  {
    b := LastStep(run, t, TryLockUntil, i, j);
    hide Outstanding, Available, Next, IsRun, Expired;
    if run[b].pcs[t].Test? && run[b].pcs[t].last {
      var r := LastTestIsExpired(run, t, b);
    }
  }

  /** Each test of the wait takes the mutex if it is available; otherwise t sleeps, or after its deadline gives up. */
  lemma TestOutcome(run: seq<State>, t: Thread, op: Op, i: nat, k: nat, a: Action)
    requires IsRun(run) && Called(run, t, op, i, k) && k + 1 < |run| && run[k].pcs[t].Test?
    requires Next(run[k], t, a, run[k + 1])
    ensures t in run[k + 1].pcs
    ensures run[k + 1].pcs[t] ==
      if Available(run, t, k) then Leave(true) else if run[k].pcs[t].last then Leave(false) else Asleep(op)
  {
    RunKeepsInv(run, k);
    assert ThreadOk(run[k], t);
    TestStep(run[k], t, a, run[k + 1]);
    hide Next, IsRun, ThreadOk;
    var b := CallHistory(run, t, op, i, k);
    AvailableFields(run, t, k);
    if run[k].kind == Recursive { LockedCountsHistory(run, k, t); }
    hide Available, Outstanding;
  }

  lemma TestStep(s: State, t: Thread, a: Action, s': State)
    requires Next(s, t, a, s') && ThreadOk(s, t) && s.pcs[t].Test?
    ensures t in s'.pcs && s'.pcs[t] ==
      if s.locked == 0 then Leave(true) else if s.pcs[t].last then Leave(false) else Asleep(s.pcs[t].op)
  {
  }

  lemma AfterReacquire(s: State, t: Thread, expired: bool, s': State)
    requires Next(s, t, Reacquire(expired), s')
    ensures s'.pcs[t].Test? && s'.pcs[t].last == expired && (expired ==> s'.pcs[t].op == TryLockUntil)
  {
  }

  /** Back from a wait after its deadline, a call reports just whether the mutex is available, and never waits again. */
  lemma DeadlineDecides(run: seq<State>, t: Thread, op: Op, i: nat, r: nat, k: nat, a: Action)
    requires IsRun(run) && Called(run, t, op, i, k) && i < r < k && k + 1 < |run|
    requires Next(run[r], t, Reacquire(true), run[r + 1])
    requires forall m :: r < m <= k ==> run[m].pcs[t] == run[r + 1].pcs[t]
    requires Next(run[k], t, a, run[k + 1])
    ensures op == TryLockUntil && t in run[k + 1].pcs && run[k + 1].pcs[t] == Leave(Available(run, t, k))
  {
    AfterReacquire(run[r], t, true, run[r + 1]);
    hide Next, IsRun, Outstanding, Available;
    var b := CallHistory(run, t, op, i, k);
    TestOutcome(run, t, op, i, k, a);
  }

  /** A timed wait needs no signal to end: once the deadline has passed and the internal mutex is free it can look. */
  lemma DeadlineNeedsNoSignal(run: seq<State>, k: nat, t: Thread)
    requires IsRun(run) && k < |run| && t in run[k].pcs && run[k].pcs[t] == Asleep(TryLockUntil)
    ensures exists s' :: Next(run[k], t, WakeUp, s') && (s'.inner == None ==> CanReacquire(s', t))
  {
    RunKeepsInv(run, k);
    assert ThreadOk(run[k], t);
    var s' := At(run[k], t, Woken(TryLockUntil));
    assert Next(run[k], t, WakeUp, s');
    if s'.inner == None {
      assert Next(s', t, Reacquire(true), At(s', t, Test(TryLockUntil, true, true)).(inner := Some(t)));
    }
  }

  ghost predicate CanReacquire(s: State, t: Thread) {
    exists s' :: Next(s, t, Reacquire(true), s')
  }

  ghost predicate MayCall(s: State, t: Thread, op: Op) {
    exists s' :: Next(s, t, Call(op), s')
  }

  /** Any thread outside may call any operation, and `unlock` if it has the mutex. */
  lemma CallPossible(run: seq<State>, k: nat, t: Thread, op: Op)
    requires IsRun(run) && k < |run| && Stands(run[k], t, Idle)
    ensures MayCall(run[k], t, op) <==> (op == Unlock ==> Outstanding(run, t, k) > 0)
  {
    DepthIsOutstanding(run, k, t);
    hide IsRun, Outstanding;
    if op == Unlock ==> run[k].depth[t] > 0 { assert Next(run[k], t, Call(op), At(run[k], t, Enter(op))); }
  }

  /** A call that is not asleep never waits for anything but the internal mutex. */
  lemma CallCanGoOn(run: seq<State>, k: nat, t: Thread)
    requires IsRun(run) && k < |run| && t in run[k].pcs && run[k].pcs[t] != Idle && !run[k].pcs[t].Asleep?
    requires run[k].inner == None || run[k].inner == Some(t) || run[k].pcs[t].Notify?
    ensures CanProceed(run[k], t)
  {
    RunKeepsInv(run, k);
    var s := run[k];
    assert ThreadOk(s, t);
    hide Inv, IsRun, CanProceed;
    if s.inner == Some(t) {
      HolderProceeds(s, t);
    } else if s.pcs[t].Enter? {
      ProceedWitness(s, t, Acquire, At(s, t, Body(s.pcs[t].op)).(inner := Some(t)));
    } else {
      PendingProceeds(s, t);
    }
  }

  /** `unlock()` gives back one acquisition, and notifies just when it was the last. */
  lemma UnlockOutcome(run: seq<State>, t: Thread, i: nat, j: nat)
    requires IsRun(run) && Completed(run, t, Unlock, i, j)
    ensures Outstanding(run, t, j + 1) == Outstanding(run, t, i) - 1
    ensures Outstanding(run, t, j + 1) == 0 <==> Signals(run[j], t, run[j + 1])
  {
    var b := LastStep(run, t, Unlock, i, j);
    hide Outstanding, IsRun;
  }

  /** A signal wakes exactly one sleeper, if there is one, and moves nobody else but the thread that gives it. */
  lemma SignalWakesOne(s: State, t: Thread, target: Option<Thread>, s': State)
    requires Next(s, t, Signal(target), s')
    ensures s'.pcs.Keys == s.pcs.Keys && s'.pcs[t] == Idle
    ensures target == None ==> forall u :: u in s.pcs ==> !s.pcs[u].Asleep?
    ensures target != None ==>
      var u := target.value;
      u in s.pcs && s.pcs[u].Asleep? && s'.pcs[u] == Woken(s.pcs[u].op)
    ensures forall u :: u in s.pcs && u != t && Some(u) != target ==> s'.pcs[u] == s.pcs[u]
  {
  }
}
