/**
 * `condition_variable_any`: waiting on any user lock through an internal mutex, as a step system of any number
 * of threads that lock, change the predicate, wait and notify in any order.
 */
module ConditionVariableAny {
  import opened Options

  type Thread = nat

  /**
   * Where a thread is. Out and Has run user code without and with the user lock. Tested to Retest are `wait`: seen
   * is the version of the predicate's data its last, failed test looked at. The last three are notify_one and
   * notify_all.
   */
  datatype Pc =
    | Out
    | WantUser
    | Has
    | Tested(seen: nat)        // wants the internal mutex, still holding the user lock
    | GotInner(seen: nat)      // holds both
    | Released(seen: nat)      // has released the user lock, not yet asleep
    | Asleep(seen: nat)
    | Woken                    // wants the internal mutex again
    | Awake                    // holds it
    | Relock                   // has released it, wants the user lock
    | Retest                   // holds the user lock, about to test the predicate again
    | NotifyWant(all: bool, locked: bool)
    | NotifyHold(all: bool, locked: bool)
    | NotifyDone(locked: bool)

  /**
   * user and inner are the holders of the two locks; version counts the changes made under the user lock; owing are
   * the threads that have changed the predicate's data and not called notify_all since.
   */
  datatype State = State(user: Option<Thread>, inner: Option<Thread>, version: nat, pred: bool, owing: set<Thread>,
    pcs: map<Thread, Pc>)

  datatype Action =
    | Lock | Unlock                 // user code asks for or gives back the user lock
    | TakeUser                      // the user lock is granted
    | Change(pred: bool)            // user code changes the data the predicate looks at
    | Wait                          // wait(lock, pred), and the test of its loop
    | GiveUp                        // wait_until(lock, time, pred) returns what pred says after its timeout
    | TakeInner | DropInner | DropUser
    | Sleep                         // pthread_cond_wait: releases the internal mutex in the same step
    | WakeUp                        // a spurious wake-up or a timeout
    | Notify(all: bool)
    | Signal(target: Option<Thread>)         // the internal signal or broadcast

  predicate HoldsUser(pc: Pc) {
    pc.Has? || pc.Tested? || pc.GotInner? || pc.Retest?
    || (pc.NotifyWant? && pc.locked) || (pc.NotifyHold? && pc.locked) || (pc.NotifyDone? && pc.locked)
  }

  predicate HoldsInner(pc: Pc) {
    pc.GotInner? || pc.Released? || pc.Awake? || pc.NotifyHold? || pc.NotifyDone?
  }

  /** The locks a thread is waiting for. */
  predicate WantsUser(pc: Pc) { pc.WantUser? || pc.Relock? }

  predicate WantsInner(pc: Pc) { pc.Tested? || pc.Woken? || pc.NotifyWant? }

  function At(s: State, t: Thread, pc: Pc): State { s.(pcs := s.pcs[t := pc]) }

  /** Everyone asleep is awake. */
  function Broadcast(pcs: map<Thread, Pc>): map<Thread, Pc> {
    map u | u in pcs :: if pcs[u].Asleep? then Woken else pcs[u]
  }

  ghost predicate Next(s: State, t: Thread, a: Action, s': State) {
    && t in s.pcs
    && var pc := s.pcs[t];
      match a
      case Lock => pc.Out? && s' == At(s, t, WantUser)
      case Unlock => pc.Has? && s' == At(s, t, Out).(user := None)
      case TakeUser =>
        && s.user == None
        && (match pc
            case WantUser => s' == At(s, t, Has).(user := Some(t))
            case Relock => s' == At(s, t, Retest).(user := Some(t))
            case _ => false)
      case Change(p) => pc.Has? && s' == s.(pred := p, version := s.version + 1, owing := s.owing + {t})
      case Wait => (pc.Has? || pc.Retest?) && s' == At(s, t, if s.pred then Has else Tested(s.version))
      case GiveUp => pc.Retest? && s' == At(s, t, Has)
      case TakeInner =>
        && s.inner == None
        && (match pc
            case Tested(seen) => s' == At(s, t, GotInner(seen)).(inner := Some(t))
            case Woken => s' == At(s, t, Awake).(inner := Some(t))
            case NotifyWant(all, locked) => s' == At(s, t, NotifyHold(all, locked)).(inner := Some(t))
            case _ => false)
      case DropUser => pc.GotInner? && s' == At(s, t, Released(pc.seen)).(user := None)
      case Sleep => pc.Released? && s' == At(s, t, Asleep(pc.seen)).(inner := None)
      case WakeUp => pc.Asleep? && s' == At(s, t, Woken)
      case DropInner =>
        (match pc
         case Awake => s' == At(s, t, Relock).(inner := None)
         case NotifyDone(locked) => s' == At(s, t, if locked then Has else Out).(inner := None)
         case _ => false)
      case Notify(all) =>
        (match pc
         case Out => s' == At(s, t, NotifyWant(all, false))
         case Has => s' == At(s, t, NotifyWant(all, true))
         case _ => false)
      case Signal(target) =>
        && pc.NotifyHold?
        && (if pc.all then s' == At(s.(pcs := Broadcast(s.pcs), owing := s.owing - {t}), t, NotifyDone(pc.locked))
            else match target
              case None => (forall u :: u in s.pcs ==> !s.pcs[u].Asleep?) && s' == At(s, t, NotifyDone(pc.locked))
              case Some(u) => u in s.pcs && s.pcs[u].Asleep? && s' == At(At(s, u, Woken), t, NotifyDone(pc.locked)))
  }

  // What every reachable state satisfies

  ghost predicate ThreadOk(s: State, t: Thread) {
    && t in s.pcs
    && (HoldsUser(s.pcs[t]) <==> s.user == Some(t))
    && (HoldsInner(s.pcs[t]) <==> s.inner == Some(t))
    && (s.pcs[t].Tested? || s.pcs[t].GotInner? ==> s.pcs[t].seen == s.version)
    && (s.pcs[t].Released? || s.pcs[t].Asleep? ==> s.pcs[t].seen <= s.version)
  }

  /** t is on its way to sleep or asleep, and what it tested has changed since. */
  predicate Outdated(s: State, t: Thread) {
    t in s.pcs && (s.pcs[t].Released? || s.pcs[t].Asleep?) && s.pcs[t].seen < s.version
  }

  /** Some other thread has changed the data and not called notify_all since. */
  ghost predicate OtherOwes(s: State, t: Thread) {
    exists u :: u in s.pcs && u in s.owing && u != t
  }

  ghost predicate NoneForgotten(s: State) {
    forall t :: Outdated(s, t) ==> OtherOwes(s, t)
  }

  ghost predicate Inv(s: State) {
    (forall t :: t in s.pcs ==> ThreadOk(s, t)) && NoneForgotten(s)
  }

  lemma NextSelf(s: State, t: Thread, a: Action, s': State)
    requires Next(s, t, a, s') && ThreadOk(s, t)
    ensures ThreadOk(s', t)
  {
  }

  lemma NextOther(s: State, t: Thread, a: Action, s': State, u: Thread)
    requires Next(s, t, a, s') && ThreadOk(s, t) && ThreadOk(s, u) && u != t
    ensures ThreadOk(s', u)
  {
  }

  lemma NextStays(s: State, t: Thread, a: Action, s': State)
    requires Next(s, t, a, s')
    ensures t in s.pcs && s'.pcs.Keys == s.pcs.Keys
  {
  }

  /** A debt is only settled by a notify_all, and then nobody is left asleep or on the way there. */
  lemma DebtRemains(s: State, t: Thread, a: Action, s': State, w: Thread, v: Thread)
    requires Next(s, t, a, s') && ThreadOk(s, t) && w in s.pcs && w in s.owing && v in s.pcs && ThreadOk(s, v)
    requires Outdated(s', v)
    ensures w in s'.pcs && w in s'.owing
  {
  }

  lemma BecomesOutdated(s: State, t: Thread, a: Action, s': State, v: Thread)
    requires Next(s, t, a, s') && ThreadOk(s, t) && v in s.pcs && ThreadOk(s, v)
    requires Outdated(s', v) && !Outdated(s, v)
    ensures t in s'.owing && t != v
  {
  }

  lemma NextKeepsInv(s: State, t: Thread, a: Action, s': State)
    requires Next(s, t, a, s') && Inv(s)
    ensures Inv(s')
  {
    hide Next, ThreadOk;
    NextStays(s, t, a, s');
    assert ThreadOk(s, t);
    forall u | u in s'.pcs ensures ThreadOk(s', u) {
      if u == t { NextSelf(s, t, a, s'); } else { NextOther(s, t, a, s', u); }
    }
    forall v | Outdated(s', v) ensures OtherOwes(s', v) {
      if Outdated(s, v) {
        var w :| w in s.pcs && w in s.owing && w != v;
        DebtRemains(s, t, a, s', w, v);
      } else {
        BecomesOutdated(s, t, a, s', v);
      }
    }
  }

  ghost predicate Initial(s: State) {
    s.user == None && s.inner == None && s.version == 0 && s.owing == {}
    && forall t :: t in s.pcs ==> s.pcs[t].Out?
  }

  ghost predicate Steps(s: State, s': State) {
    exists t, a :: Next(s, t, a, s')
  }

  ghost predicate IsRun(run: seq<State>) {
    run != [] && Initial(run[0]) && forall i :: 0 < i < |run| ==> Steps(run[i - 1], run[i])
  }

  lemma {:induction false} RunKeepsInv(run: seq<State>, i: nat)
    requires IsRun(run) && i < |run|
    ensures Inv(run[i])
  {
    if i > 0 {
      RunKeepsInv(run, i - 1);
      var t, a :| Next(run[i - 1], t, a, run[i]);
      NextKeepsInv(run[i - 1], t, a, run[i]);
    }
  }

  // What the waiting and the notifying side may rely on

  /** A notifier that changed the data after a waiter's test finds that waiter already asleep. */
  lemma NotifyFindsSleeper(run: seq<State>, i: nat, u: Thread, t: Thread)
    requires IsRun(run) && i < |run| && u in run[i].pcs && run[i].pcs[u].NotifyHold?
    requires t in run[i].pcs &&
             (run[i].pcs[t].Tested? || run[i].pcs[t].GotInner? || run[i].pcs[t].Released? || run[i].pcs[t].Asleep?)
    requires run[i].pcs[t].seen < run[i].version
    ensures run[i].pcs[t].Asleep?
  {
    RunKeepsInv(run, i);
    assert ThreadOk(run[i], u) && ThreadOk(run[i], t);
  }

  /** While a thread sleeps on data that has changed since its test, some other thread still owes a notify_all. */
  lemma NoLostNotification(run: seq<State>, i: nat, t: Thread)
    requires IsRun(run) && i < |run| && t in run[i].pcs && run[i].pcs[t].Asleep? && run[i].pcs[t].seen < run[i].version
    ensures exists u :: u in run[i].pcs && u in run[i].owing && u != t
  {
    RunKeepsInv(run, i);
    assert Outdated(run[i], t);
  }

  /** Giving up after a timeout returns holding the user lock too. */
  lemma GiveUpReturnsLocked(run: seq<State>, i: nat, t: Thread, s': State)
    requires IsRun(run) && i < |run| && Next(run[i], t, GiveUp, s')
    ensures run[i].user == Some(t) && s'.user == Some(t) && s'.pcs[t].Has?
  {
    RunKeepsInv(run, i);
    assert ThreadOk(run[i], t);
  }

  /** `wait` tests its predicate holding the user lock, the first time and every later time, and returns with both. */
  lemma WaitReturnsLocked(run: seq<State>, i: nat, t: Thread, s': State)
    requires IsRun(run) && i < |run| && Next(run[i], t, Wait, s')
    ensures run[i].user == Some(t) && s'.user == Some(t)
    ensures s'.pcs[t].Has? <==> s'.pred
    ensures !s'.pred ==> s'.pcs[t] == Tested(s'.version)
  {
    RunKeepsInv(run, i);
    assert ThreadOk(run[i], t);
  }

  /** No thread waits for the user lock while it holds the internal mutex; holding that, it waits for nothing. */
  lemma LockOrder(run: seq<State>, i: nat, t: Thread)
    requires IsRun(run) && i < |run| && t in run[i].pcs
    ensures WantsUser(run[i].pcs[t]) ==> run[i].inner != Some(t) && run[i].user != Some(t)
    ensures run[i].inner == Some(t) ==> !WantsUser(run[i].pcs[t]) && !WantsInner(run[i].pcs[t])
  {
    RunKeepsInv(run, i);
    assert ThreadOk(run[i], t);
  }

  ghost predicate WaitsFor(s: State, t: Thread, u: Thread) {
    t in s.pcs && ((WantsUser(s.pcs[t]) && s.user == Some(u)) || (WantsInner(s.pcs[t]) && s.inner == Some(u)))
  }

  /** The two locks cannot deadlock: nobody waits for a thread that waits for a thread that waits. */
  lemma NoWaitChain(run: seq<State>, i: nat, t: Thread, u: Thread, v: Thread, w: Thread)
    requires IsRun(run) && i < |run| && u in run[i].pcs && v in run[i].pcs
    requires WaitsFor(run[i], t, u) && WaitsFor(run[i], u, v)
    ensures !WaitsFor(run[i], v, w)
  {
    RunKeepsInv(run, i);
    assert ThreadOk(run[i], t) && ThreadOk(run[i], u) && ThreadOk(run[i], v);
  }
}
