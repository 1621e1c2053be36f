/** `condition_variable_any` over whole runs: what becomes of a wait, and whom a notification reaches. */
module NotifyHistory {
  import opened Options
  import opened ConditionVariableAny

  // Single notifications

  predicate Sleeps(s: State, u: Thread) {
    u in s.pcs && s.pcs[u].Asleep?
  }

  /** Of all threads only u, from asleep to woken, and the notifier t have moved. */
  ghost predicate WakesOnly(s: State, t: Thread, u: Thread, s': State) {
    && Sleeps(s, u) && u != t && u in s'.pcs && s'.pcs[u] == Woken
    && forall v :: v in s.pcs && v != t && v != u ==> v in s'.pcs && s'.pcs[v] == s.pcs[v]
  }

  ghost predicate WakesOne(s: State, t: Thread, s': State) {
    exists u :: WakesOnly(s, t, u, s')
  }

  ghost predicate WakesNobody(s: State, t: Thread, s': State) {
    forall v :: v in s.pcs && v != t ==> !Sleeps(s, v) && v in s'.pcs && s'.pcs[v] == s.pcs[v]
  }

  /** Every sleeper has woken, and of the others only the notifier t has moved. */
  ghost predicate WakesAll(s: State, t: Thread, s': State) {
    forall v :: v in s.pcs && v != t ==> v in s'.pcs && s'.pcs[v] == if Sleeps(s, v) then Woken else s.pcs[v]
  }

  /** `notify_one` wakes exactly one thread if any is asleep, `notify_all` wakes them all; nobody else moves. */
  lemma SignalWakes(s: State, t: Thread, target: Option<Thread>, s': State)
    requires Next(s, t, Signal(target), s')
    ensures s.pcs[t].NotifyHold? && s'.pcs[t] == NotifyDone(s.pcs[t].locked) && s'.pcs.Keys == s.pcs.Keys
    ensures s.pcs[t].all ==> WakesAll(s, t, s') && forall u :: !Sleeps(s', u)
    ensures !s.pcs[t].all && (exists u :: Sleeps(s, u)) ==> WakesOne(s, t, s')
    ensures !s.pcs[t].all && (forall u :: !Sleeps(s, u)) ==> WakesNobody(s, t, s')
  {
    if !s.pcs[t].all && target != None { assert WakesOnly(s, t, target.value, s'); }
  }

  /** Only a signal, or its own timeout, wakes a sleeper, and nothing but a signal does so to another thread. */
  lemma WokenBySignal(s: State, u: Thread, a: Action, s': State, t: Thread)
    requires Next(s, u, a, s') && Sleeps(s, t) && !Sleeps(s', t)
    ensures (u == t && a == WakeUp) || (u != t && a.Signal? && s.pcs[u].NotifyHold?)
    ensures t in s'.pcs && s'.pcs[t] == Woken
  {
  }

  // Whole calls

  predicate Notifying(pc: Pc) {
    pc.NotifyWant? || pc.NotifyHold? || pc.NotifyDone?
  }

  ghost predicate Gives(s: State, t: Thread, all: bool, s': State) {
    t in s.pcs && s.pcs[t].NotifyHold? && s.pcs[t].all == all && exists target :: Next(s, t, Signal(target), s')
  }

  /** t called notify_all, or notify_one if not all, in step i and is inside that call in state j. */
  ghost predicate CalledNotify(run: seq<State>, t: Thread, all: bool, i: nat, j: nat) {
    && i < j < |run| && Next(run[i], t, Notify(all), run[i + 1])
    && forall k :: i < k <= j ==> t in run[k].pcs && Notifying(run[k].pcs[t])
  }

  ghost predicate NotifyAt(run: seq<State>, t: Thread, all: bool, locked: bool, i: nat, j: nat, g: nat)
    requires i < j < |run| && t in run[j].pcs
  {
    match run[j].pcs[t]
    case NotifyWant(a, l) => a == all && l == locked
    case NotifyHold(a, l) => a == all && l == locked
    case NotifyDone(l) => l == locked && i < g < j && Gives(run[g], t, all, run[g + 1])
    case _ => false
  }

  lemma NotifyStages(s: State, u: Thread, a: Action, s': State, t: Thread)
    requires Next(s, u, a, s') && t in s.pcs && Notifying(s.pcs[t]) && t in s'.pcs && Notifying(s'.pcs[t])
    ensures
      || s'.pcs[t] == s.pcs[t]
      || (s.pcs[t].NotifyWant? && s'.pcs[t] == NotifyHold(s.pcs[t].all, s.pcs[t].locked))
      || (s.pcs[t].NotifyHold? && s'.pcs[t] == NotifyDone(s.pcs[t].locked) && Gives(s, t, s.pcs[t].all, s'))
  {
  }

  lemma NotifyStep(run: seq<State>, t: Thread, all: bool, locked: bool, i: nat, j: nat, g: nat) returns (g': nat)
    requires IsRun(run) && i < j && j + 1 < |run| && t in run[j].pcs && NotifyAt(run, t, all, locked, i, j, g)
    requires t in run[j + 1].pcs && Notifying(run[j + 1].pcs[t])
    ensures NotifyAt(run, t, all, locked, i, j + 1, g')
  {
    hide Next, Gives;
    var u, a :| Next(run[j], u, a, run[j + 1]);
    NotifyStages(run[j], u, a, run[j + 1], t);
    g' := if run[j + 1].pcs[t] == run[j].pcs[t] then g else j;
  }

  lemma {:induction false} NotifyPath(run: seq<State>, t: Thread, all: bool, i: nat, j: nat) returns (g: nat)
    requires IsRun(run) && CalledNotify(run, t, all, i, j)
    ensures t in run[i].pcs && NotifyAt(run, t, all, run[i].pcs[t].Has?, i, j, g)
    decreases j
  {
    hide Next, Gives, IsRun;
    NotifyBegins(run[i], t, all, run[i + 1]);
    g := 0;
    if j > i + 1 {
      g := NotifyPath(run, t, all, i, j - 1);
      g := NotifyStep(run, t, all, run[i].pcs[t].Has?, i, j - 1, g);
    }
  }

  lemma NotifyBegins(s: State, t: Thread, all: bool, s': State)
    requires Next(s, t, Notify(all), s')
    ensures t in s.pcs && (s.pcs[t].Has? || s.pcs[t].Out?) && s'.pcs[t] == NotifyWant(all, s.pcs[t].Has?)
  {
  }

  lemma NotifyEnds(s: State, u: Thread, a: Action, s': State, t: Thread)
    requires Next(s, u, a, s') && t in s.pcs && Notifying(s.pcs[t]) && t in s'.pcs && !Notifying(s'.pcs[t])
    ensures s.pcs[t].NotifyDone? && s'.pcs[t] == if s.pcs[t].locked then Has else Out
  {
  }

  /** A call of notify_one or notify_all does not return before its own signal is given, and leaves the user lock. */
  lemma NotifyOutcome(run: seq<State>, t: Thread, all: bool, i: nat, j: nat) returns (g: nat)
    requires IsRun(run) && CalledNotify(run, t, all, i, j) && j + 1 < |run|
    requires t in run[j + 1].pcs && !Notifying(run[j + 1].pcs[t])
    ensures i < g < j && Gives(run[g], t, all, run[g + 1])
    ensures t in run[i].pcs && run[j + 1].pcs[t] == run[i].pcs[t] && (run[i].pcs[t].Has? || run[i].pcs[t].Out?)
  {
    hide Next, Gives;
    NotifyBegins(run[i], t, all, run[i + 1]);
    g := NotifyPath(run, t, all, i, j);
    var u, a :| Next(run[j], u, a, run[j + 1]);
    NotifyEnds(run[j], u, a, run[j + 1], t);
  }

  // Waiting

  function Stage(pc: Pc): (n: nat)
    ensures n <= 8 && (n == 8 <==> pc.Retest?) && (n == 4 <==> pc.Asleep?)
  {
    match pc
    case Tested(_) => 1
    case GotInner(_) => 2
    case Released(_) => 3
    case Asleep(_) => 4
    case Woken => 5
    case Awake => 6
    case Relock => 7
    case Retest => 8
    case _ => 0
  }

  /** A wait goes through its stages one by one, and each step of the waiting thread is the next of them. */
  lemma StageNext(s: State, u: Thread, a: Action, s': State, t: Thread)
    requires Next(s, u, a, s') && t in s.pcs && 0 < Stage(s.pcs[t]) < 8
    ensures t in s'.pcs && (Stage(s'.pcs[t]) == Stage(s.pcs[t]) || Stage(s'.pcs[t]) == Stage(s.pcs[t]) + 1)
    ensures u == t ==> Stage(s'.pcs[t]) == Stage(s.pcs[t]) + 1
    ensures u != t && s'.pcs[t] != s.pcs[t] ==> a.Signal? && Sleeps(s, t) && s'.pcs[t] == Woken
  {
  }

  /** t tests its predicate in step r, finds it false, and has not tested it again by state i. */
  ghost predicate Waits(run: seq<State>, t: Thread, r: nat, i: nat) {
    && r < i < |run| && Next(run[r], t, Wait, run[r + 1])
    && forall k :: r < k <= i ==> t in run[k].pcs && 0 < Stage(run[k].pcs[t]) && (k < i ==> !run[k].pcs[t].Retest?)
  }

  lemma WaitBegins(s: State, t: Thread, s': State)
    requires Next(s, t, Wait, s') && t in s'.pcs && Stage(s'.pcs[t]) != 0
    ensures s'.pcs[t] == Tested(s.version) && Stage(s'.pcs[t]) == 1
  {
  }

  lemma Advances(run: seq<State>, t: Thread, k: nat)
    requires IsRun(run) && k + 1 < |run| && t in run[k].pcs && 0 < Stage(run[k].pcs[t]) < 8
    ensures t in run[k + 1].pcs
    ensures Stage(run[k].pcs[t]) <= Stage(run[k + 1].pcs[t]) <= Stage(run[k].pcs[t]) + 1
  {
    hide Next;
    var u, a :| Next(run[k], u, a, run[k + 1]);
    StageNext(run[k], u, a, run[k + 1], t);
  }

  /** Before it tests again, a wait has passed each of its stages: it has given up the user lock, slept, and so on. */
  lemma {:induction false} WaitPasses(run: seq<State>, t: Thread, r: nat, i: nat, n: nat) returns (k: nat)
    requires IsRun(run) && Waits(run, t, r, i) && 0 < n < Stage(run[i].pcs[t])
    ensures r < k < i && Stage(run[k].pcs[t]) == n && Stage(run[k + 1].pcs[t]) == n + 1
    decreases i
  {
    hide Next, IsRun, Stage;
    WaitBegins(run[r], t, run[r + 1]);
    Advances(run, t, i - 1);
    if Stage(run[i - 1].pcs[t]) == n {
      k := i - 1;
    } else {
      k := WaitPasses(run, t, r, i - 1, n);
    }
  }

  /** A wait that tests again has been asleep, and was woken by a signal or by its own timeout. */
  lemma WaitSleeps(run: seq<State>, t: Thread, r: nat, i: nat) returns (k: nat, u: Thread, a: Action)
    requires IsRun(run) && Waits(run, t, r, i) && run[i].pcs[t].Retest?
    ensures r < k < i && Sleeps(run[k], t) && Next(run[k], u, a, run[k + 1])
    ensures run[k + 1].pcs[t] == Woken && if u == t then a == WakeUp else a.Signal?
  {
    hide Next;
    k := WaitPasses(run, t, r, i, 4);
    u, a :| Next(run[k], u, a, run[k + 1]);
    WokenBySignal(run[k], u, a, run[k + 1], t);
  }

  lemma {:induction false} StageGrows(run: seq<State>, t: Thread, r: nat, c: nat, k: nat)
    requires IsRun(run) && Waits(run, t, r, k) && r < c <= k
    ensures Stage(run[c].pcs[t]) <= Stage(run[k].pcs[t])
    decreases k
  {
    hide Next, IsRun, Stage;
    if c < k {
      StageGrows(run, t, r, c, k - 1);
      Advances(run, t, k - 1);
    }
  }

  // Changes and notifications

  ghost predicate Changes(s: State, u: Thread, s': State) {
    exists p :: Next(s, u, Change(p), s')
  }

  lemma ChangerHasUser(s: State, u: Thread, s': State, t: Thread)
    requires Changes(s, u, s') && ThreadOk(s, u) && ThreadOk(s, t) && Stage(s.pcs[t]) > 0
    ensures u != t && Stage(s.pcs[t]) > 2
  {
  }

  lemma SignallerHasInner(s: State, v: Thread, target: Option<Thread>, s': State, t: Thread)
    requires Next(s, v, Signal(target), s') && ThreadOk(s, v) && ThreadOk(s, t) && Stage(s.pcs[t]) > 0
    ensures v != t && Stage(s.pcs[t]) != 3
  {
  }

  /**
   * No notification is lost: when the data has changed since a waiter's test, any signal given after the change
   * finds that waiter asleep or already woken, ...
   */
  lemma SignalFindsWaiter(run: seq<State>, t: Thread, r: nat, u: Thread, c: nat, v: Thread, target: Option<Thread>,
                          k: nat)
    requires IsRun(run) && Waits(run, t, r, k) && k + 1 < |run|
    requires r < c < k && Changes(run[c], u, run[c + 1]) && Next(run[k], v, Signal(target), run[k + 1])
    ensures Stage(run[k].pcs[t]) >= 4
  {
    RunKeepsInv(run, c);
    RunKeepsInv(run, k);
    assert u in run[c].pcs && v in run[k].pcs;
    assert ThreadOk(run[c], u) && ThreadOk(run[c], t) && ThreadOk(run[k], v) && ThreadOk(run[k], t);
    hide Next, Inv, ThreadOk, IsRun, Changes, Stage;
    ChangerHasUser(run[c], u, run[c + 1], t);
    SignallerHasInner(run[k], v, target, run[k + 1], t);
    StageGrows(run, t, r, c, k);
  }

  lemma WaiterIsNotSignaller(s: State, v: Thread, target: Option<Thread>, s': State, t: Thread)
    requires Next(s, v, Signal(target), s') && t in s.pcs && Stage(s.pcs[t]) > 0
    ensures v != t
  {
  }

  /** ... and, if it is asleep, notify_all wakes it and notify_one wakes exactly one of the threads asleep. */
  lemma ChangeIsNotified(run: seq<State>, t: Thread, r: nat, u: Thread, c: nat, v: Thread, all: bool, k: nat)
    requires IsRun(run) && Waits(run, t, r, k) && k + 1 < |run|
    requires r < c < k && Changes(run[c], u, run[c + 1]) && Gives(run[k], v, all, run[k + 1])
    ensures t in run[k + 1].pcs && (all ==> Stage(run[k + 1].pcs[t]) > 4)
    ensures !all ==> Stage(run[k].pcs[t]) > 4 || WakesOne(run[k], v, run[k + 1])
  {
    hide Next, IsRun, WakesOne, Changes;
    var target :| Next(run[k], v, Signal(target), run[k + 1]);
    SignalFindsWaiter(run, t, r, u, c, v, target, k);
    SignalWakes(run[k], v, target, run[k + 1]);
    WaiterIsNotSignaller(run[k], v, target, run[k + 1], t);
  }

  // The fields no code reads, against the history

  ghost predicate SomeoneChanges(s: State, s': State) {
    exists u :: Changes(s, u, s')
  }

  ghost function ChangeCount(run: seq<State>, i: nat): nat
    requires i < |run|
  {
    if i == 0 then 0 else ChangeCount(run, i - 1) + if SomeoneChanges(run[i - 1], run[i]) then 1 else 0
  }

  /** u has changed the data and given no notify_all since. */
  ghost predicate Owes(run: seq<State>, u: Thread, i: nat)
    requires i < |run|
  {
    i > 0 && (Changes(run[i - 1], u, run[i]) || (Owes(run, u, i - 1) && !Gives(run[i - 1], u, true, run[i])))
  }

  /** The data is changed only by a thread that holds the user lock, and to what it says. */
  lemma DataChanges(s: State, u: Thread, a: Action, s': State)
    requires Next(s, u, a, s') && ThreadOk(s, u)
    ensures a.Change? ==> s.user == Some(u) && s'.pred == a.pred && s'.version == s.version + 1 && Changes(s, u, s')
    ensures !a.Change? ==> s'.pred == s.pred && s'.version == s.version
  {
  }

  lemma NoChange(s: State, u: Thread, a: Action, s': State)
    requires Next(s, u, a, s') && !a.Change?
    ensures !SomeoneChanges(s, s')
  {
  }

  lemma OwingNext(s: State, v: Thread, a: Action, s': State, u: Thread)
    requires Next(s, v, a, s')
    ensures u in s'.owing <==> Changes(s, u, s') || (u in s.owing && !Gives(s, u, true, s'))
  {
  }

  /** `version` counts the changes, and the threads owing are those that have changed and not notified all since. */
  lemma {:induction false} FieldsAreHistory(run: seq<State>, i: nat, u: Thread)
    requires IsRun(run) && i < |run|
    ensures run[i].version == ChangeCount(run, i)
    ensures u in run[i].owing <==> Owes(run, u, i)
  {
    hide Next, Changes, Gives, SomeoneChanges, Inv, ThreadOk;
    if i > 0 {
      FieldsAreHistory(run, i - 1, u);
      var v, a :| Next(run[i - 1], v, a, run[i]);
      OwingNext(run[i - 1], v, a, run[i], u);
      RunKeepsInv(run, i - 1);
      CountNext(run[i - 1], v, a, run[i]);
    }
  }

  lemma CountNext(s: State, v: Thread, a: Action, s': State)
    requires Next(s, v, a, s') && Inv(s)
    ensures s'.version == s.version + if SomeoneChanges(s, s') then 1 else 0
  {
    assert ThreadOk(s, v);
    hide Inv, Next, ThreadOk, Changes;
    DataChanges(s, v, a, s');
    if !a.Change? { NoChange(s, v, a, s'); }
  }

  lemma StageKeepsSeen(s: State, u: Thread, a: Action, s': State, t: Thread)
    requires Next(s, u, a, s') && t in s.pcs && t in s'.pcs
    requires 0 < Stage(s.pcs[t]) <= 4 && 0 < Stage(s'.pcs[t]) <= 4
    ensures s'.pcs[t].seen == s.pcs[t].seen
  {
  }

  /** `seen` is the number of changes made before the waiter's test. */
  lemma {:induction false} SeenIsHistory(run: seq<State>, t: Thread, r: nat, i: nat)
    requires IsRun(run) && Waits(run, t, r, i) && Stage(run[i].pcs[t]) <= 4
    ensures run[i].pcs[t].seen == ChangeCount(run, r)
    decreases i
  {
    hide Next, ChangeCount;
    if i == r + 1 {
      WaitBegins(run[r], t, run[r + 1]);
      FieldsAreHistory(run, r, t);
    } else {
      StageGrows(run, t, r, i - 1, i);
      SeenIsHistory(run, t, r, i - 1);
      var u, a :| Next(run[i - 1], u, a, run[i]);
      StageKeepsSeen(run[i - 1], u, a, run[i], t);
    }
  }

  // Progress

  /** Steps the code takes by itself: no new call and no spurious wake-up. */
  ghost predicate CanProceed(s: State, t: Thread) {
    exists a, s' :: Next(s, t, a, s') && !a.WakeUp? && !a.Lock? && !a.Notify?
  }

  lemma ProceedWitness(s: State, t: Thread, a: Action, s': State)
    requires Next(s, t, a, s') && !a.WakeUp? && !a.Lock? && !a.Notify?
    ensures CanProceed(s, t)
  {
  }

  lemma Unhindered(s: State, t: Thread)
    requires t in s.pcs && !s.pcs[t].Asleep? && !s.pcs[t].Out?
    requires WantsUser(s.pcs[t]) ==> s.user == None
    requires WantsInner(s.pcs[t]) ==> s.inner == None
    ensures CanProceed(s, t)
  {
    hide CanProceed;
    match s.pcs[t] {
      case WantUser => ProceedWitness(s, t, TakeUser, At(s, t, Has).(user := Some(t)));
      case Has => ProceedWitness(s, t, Unlock, At(s, t, Out).(user := None));
      case Tested(v) => ProceedWitness(s, t, TakeInner, At(s, t, GotInner(v)).(inner := Some(t)));
      case GotInner(v) => ProceedWitness(s, t, DropUser, At(s, t, Released(v)).(user := None));
      case Released(v) => ProceedWitness(s, t, Sleep, At(s, t, Asleep(v)).(inner := None));
      case Woken => ProceedWitness(s, t, TakeInner, At(s, t, Awake).(inner := Some(t)));
      case Awake => ProceedWitness(s, t, DropInner, At(s, t, Relock).(inner := None));
      case Relock => ProceedWitness(s, t, TakeUser, At(s, t, Retest).(user := Some(t)));
      case Retest => ProceedWitness(s, t, Wait, At(s, t, if s.pred then Has else Tested(s.version)));
      case NotifyWant(all, l) => ProceedWitness(s, t, TakeInner, At(s, t, NotifyHold(all, l)).(inner := Some(t)));
      case NotifyHold(all, l) => SignalPossible(s, t);
      case NotifyDone(l) => ProceedWitness(s, t, DropInner, At(s, t, if l then Has else Out).(inner := None));
    }
  }

  lemma SignalPossible(s: State, t: Thread)
    requires t in s.pcs && s.pcs[t].NotifyHold?
    ensures CanProceed(s, t)
  {
    var done := NotifyDone(s.pcs[t].locked);
    if s.pcs[t].all {
      ProceedWitness(s, t, Signal(None), At(s.(pcs := Broadcast(s.pcs), owing := s.owing - {t}), t, done));
    } else if u :| u in s.pcs && s.pcs[u].Asleep? {
      ProceedWitness(s, t, Signal(Some(u)), At(At(s, u, Woken), t, done));
    } else {
      ProceedWitness(s, t, Signal(None), At(s, t, done));
    }
  }

  ghost predicate Offers(s: State, t: Thread, a: Action) {
    exists s' :: Next(s, t, a, s')
  }

  lemma OffersWitness(s: State, t: Thread, a: Action, s': State)
    requires Next(s, t, a, s')
    ensures Offers(s, t, a)
  {
  }

  /**
   * User code may notify with and without the user lock, and change the data or wait with it; a wait may end its
   * sleep by a timeout at any time, and then give up.
   */
  lemma UserMay(s: State, t: Thread, p: bool, all: bool)
    requires t in s.pcs
    ensures s.pcs[t].Out? ==> Offers(s, t, Lock)
    ensures s.pcs[t].Out? || s.pcs[t].Has? ==> Offers(s, t, Notify(all))
    ensures s.pcs[t].Has? ==> Offers(s, t, Unlock) && Offers(s, t, Change(p)) && Offers(s, t, Wait)
    ensures s.pcs[t].Asleep? ==> Offers(s, t, WakeUp)
    ensures s.pcs[t].Retest? ==> Offers(s, t, Wait) && Offers(s, t, GiveUp)
  {
    hide Offers;
    match s.pcs[t] {
      case Out =>
        OffersWitness(s, t, Lock, At(s, t, WantUser));
        OffersWitness(s, t, Notify(all), At(s, t, NotifyWant(all, false)));
      case Has =>
        OffersWitness(s, t, Notify(all), At(s, t, NotifyWant(all, true)));
        OffersWitness(s, t, Unlock, At(s, t, Out).(user := None));
        OffersWitness(s, t, Change(p), s.(pred := p, version := s.version + 1, owing := s.owing + {t}));
        OffersWitness(s, t, Wait, At(s, t, if s.pred then Has else Tested(s.version)));
      case Asleep(_) => OffersWitness(s, t, WakeUp, At(s, t, Woken));
      case Retest =>
        OffersWitness(s, t, Wait, At(s, t, if s.pred then Has else Tested(s.version)));
        OffersWitness(s, t, GiveUp, At(s, t, Has));
      case _ =>
    }
  }

  /** The two locks are only ever held by threads of the system. */
  ghost predicate HoldersKnown(s: State) {
    && (s.user != None ==> s.user.value in s.pcs)
    && (s.inner != None ==> s.inner.value in s.pcs)
  }

  lemma NextHoldersKnown(s: State, t: Thread, a: Action, s': State)
    requires Next(s, t, a, s') && HoldersKnown(s)
    ensures HoldersKnown(s')
  {
  }

  lemma {:induction false} RunHoldersKnown(run: seq<State>, i: nat)
    requires IsRun(run) && i < |run|
    ensures HoldersKnown(run[i])
  {
    if i > 0 {
      RunHoldersKnown(run, i - 1);
      var t, a :| Next(run[i - 1], t, a, run[i]);
      hide Next, HoldersKnown;
      NextHoldersKnown(run[i - 1], t, a, run[i]);
    }
  }

  lemma InnerHolderProceeds(s: State, t: Thread)
    requires Inv(s) && HoldersKnown(s) && s.inner == Some(t)
    ensures CanProceed(s, t)
  {
    assert ThreadOk(s, t);
    Unhindered(s, t);
  }

  lemma UserHolderProceeds(s: State, t: Thread)
    requires Inv(s) && HoldersKnown(s) && s.user == Some(t)
    ensures CanProceed(s, t) || (WaitsInner(s, t) && CanProceed(s, s.inner.value))
  {
    assert ThreadOk(s, t);
    hide Inv, CanProceed;
    if WaitsInner(s, t) { InnerHolderProceeds(s, s.inner.value); } else { Unhindered(s, t); }
  }

  predicate WaitsInner(s: State, t: Thread) {
    t in s.pcs && WantsInner(s.pcs[t]) && s.inner != None
  }

  /**
   * The system is never stuck: a thread inside an operation can go on by itself, unless it is asleep or waits for a
   * lock whose holder can, or whose holder waits for the other lock and the holder of that can.
   */
  lemma SomeoneProceeds(run: seq<State>, i: nat, t: Thread)
    requires IsRun(run) && i < |run| && t in run[i].pcs && !run[i].pcs[t].Asleep? && !run[i].pcs[t].Out?
    ensures
      || CanProceed(run[i], t)
      || (exists u :: WaitsFor(run[i], t, u) && CanProceed(run[i], u))
      || (exists u, v :: WaitsFor(run[i], t, u) && WaitsFor(run[i], u, v) && CanProceed(run[i], v))
  {
    var s := run[i];
    RunKeepsInv(run, i);
    RunHoldersKnown(run, i);
    hide Inv, HoldersKnown, CanProceed, IsRun;
    if WantsUser(s.pcs[t]) && s.user != None {
      var u := s.user.value;
      assert WaitsFor(s, t, u);
      UserHolderProceeds(s, u);
      if !CanProceed(s, u) { assert WaitsFor(s, u, s.inner.value); }
    } else if WaitsInner(s, t) {
      assert WaitsFor(s, t, s.inner.value);
      InnerHolderProceeds(s, s.inner.value);
    } else {
      Unhindered(s, t);
    }
  }
}
