/** What a whole call of `lock(...)` or `try_lock(...)` does, as the sequence of its operations on the mutexes. */
module LockOutcome {
  import opened Sequences
  import opened LockAlgorithm

  // The steps of one thread through a call, with those of other threads left out

  /** The effects es, in this order, lead a call over locks from pc to pc'. */
  ghost predicate Reaches(locks: seq<Mutex>, pc: Pc, es: seq<Effect>, pc': Pc)
    decreases |es|
  {
    if es == [] then pc == pc'
    else
      exists mid ::
        && PcOk(|locks|, mid) && Reaches(locks, pc, es[..|es| - 1], mid)
        && Move(locks, mid, es[|es| - 1], pc')
  }

  lemma ReachesNext(locks: seq<Mutex>, pc: Pc, es: seq<Effect>, mid: Pc, e: Effect, pc': Pc)
    requires Reaches(locks, pc, es, mid) && PcOk(|locks|, mid) && Move(locks, mid, e, pc')
    ensures Reaches(locks, pc, es + [e], pc')
  {
    hide Move, PcOk;
    assert (es + [e])[..|es + [e]| - 1] == es;
  }

  ghost predicate StepsBy(s: State, t: Thread, e: Effect, s': State) {
    exists act :: Next(s, t, act, e, s')
  }

  ghost predicate OtherSteps(s: State, t: Thread, s': State) {
    exists u, act, e :: u != t && Next(s, u, act, e, s')
  }

  /** es are the effects of t's steps between states i and j of the run, in order. */
  ghost predicate Does(run: seq<State>, t: Thread, i: nat, j: nat, es: seq<Effect>)
    requires i <= j < |run|
    decreases j
  {
    if i == j then es == []
    else
      || (OtherSteps(run[j - 1], t, run[j]) && Does(run, t, i, j - 1, es))
      || (es != [] && StepsBy(run[j - 1], t, es[|es| - 1], run[j]) && Does(run, t, i, j - 1, es[..|es| - 1]))
  }

  /** From state i to state j thread t is inside one call. */
  ghost predicate InCall(run: seq<State>, t: Thread, i: nat, j: nat) {
    i <= j < |run| && forall k :: i <= k <= j ==> t in run[k].calls && run[k].calls[t].pc != Outside
  }

  /** What t does from state i to state j leads its call from where it is in the one to where it is in the other. */
  lemma {:induction false} CallPath(run: seq<State>, t: Thread, i: nat, j: nat) returns (es: seq<Effect>)
    requires IsRun(run) && InCall(run, t, i, j)
    ensures Does(run, t, i, j, es) && run[j].calls[t].locks == run[i].calls[t].locks
    ensures Reaches(run[i].calls[t].locks, run[i].calls[t].pc, es, run[j].calls[t].pc)
    decreases j
  {
    hide Next, Move;
    if i == j {
      es := [];
    } else {
      es := CallPath(run, t, i, j - 1);
      assert Steps(run[j - 1], run[j]);
      var u, act, e :| Next(run[j - 1], u, act, e, run[j]);
      if u == t {
        OwnStep(run[j - 1], t, act, e, run[j]);
        ReachesNext(run[i].calls[t].locks, run[i].calls[t].pc, es, run[j - 1].calls[t].pc, e, run[j].calls[t].pc);
        assert (es + [e])[..|es + [e]| - 1] == es && StepsBy(run[j - 1], t, e, run[j]);
        es := es + [e];
      } else {
        OtherStep(run[j - 1], u, act, e, run[j], t);
        assert OtherSteps(run[j - 1], t, run[j]);
      }
    }
  }

  lemma OwnStep(s: State, t: Thread, act: Action, e: Effect, s': State)
    requires Next(s, t, act, e, s') && s.calls[t].pc != Outside && s'.calls[t].pc != Outside
    ensures PcOk(|s.calls[t].locks|, s.calls[t].pc) && Move(s.calls[t].locks, s.calls[t].pc, e, s'.calls[t].pc)
    ensures s'.calls[t].locks == s.calls[t].locks
  {
    hide Move, PcOk, HeldBy;
  }

  lemma OtherStep(s: State, u: Thread, act: Action, e: Effect, s': State, t: Thread)
    requires Next(s, u, act, e, s') && u != t && t in s.calls
    ensures t in s'.calls && s'.calls[t] == s.calls[t]
  {
    hide Effective, CallOk, CanApply, Apply;
  }

  // The operations in plain terms

  /** Taking, and releasing, the mutexes a .. b - 1 in order. */
  ghost function Takes(locks: seq<Mutex>, a: nat, b: nat): (es: seq<Effect>)
    requires a <= b <= |locks|
    ensures |es| == b - a
  {
    if a == b then [] else Takes(locks, a, b - 1) + [Take(locks[b - 1])]
  }

  ghost function Releases(locks: seq<Mutex>, a: nat, b: nat): (es: seq<Effect>)
    requires a <= b <= |locks|
    ensures |es| == b - a
  {
    if a == b then [] else Releases(locks, a, b - 1) + [Release(locks[b - 1])]
  }

  // try_lock

  /** Trying the range from a on and failing at k: each mutex before k once, the failed try, and all given back. */
  ghost function FailedRange(locks: seq<Mutex>, a: nat, k: nat, u: nat): seq<Effect>
    requires a <= u <= k <= |locks|
  {
    Takes(locks, a, k) + [Nothing] + Releases(locks, a, u)
  }

  predicate Trying(pc: Pc) {
    pc.TryAll? || pc.UndoAll? || pc.Failed? || pc.Returned?
  }

  ghost function TriedSoFar(locks: seq<Mutex>, pc: Pc): seq<Effect>
    requires PcOk(|locks|, pc) && Trying(pc)
  {
    match pc
    case TryAll(k) => Takes(locks, 0, k)
    case UndoAll(k, u) => FailedRange(locks, 0, k, u)
    case Failed(k) => FailedRange(locks, 0, k, k)
    case _ => Takes(locks, 0, |locks|)
  }

  lemma TryStep(locks: seq<Mutex>, pc: Pc, e: Effect, pc': Pc)
    requires PcOk(|locks|, pc) && Trying(pc) && Move(locks, pc, e, pc')
    ensures PcOk(|locks|, pc') && Trying(pc') && TriedSoFar(locks, pc') == TriedSoFar(locks, pc) + [e]
  {
  }

  lemma {:induction false} TryPath(locks: seq<Mutex>, es: seq<Effect>, pc: Pc)
    requires |locks| >= 1 && Reaches(locks, TryAll(0), es, pc)
    ensures PcOk(|locks|, pc) && Trying(pc) && es == TriedSoFar(locks, pc)
    decreases |es|
  {
    hide Move;
    if es != [] {
      var n := |es| - 1;
      var mid :| PcOk(|locks|, mid) && Reaches(locks, TryAll(0), es[..n], mid) && Move(locks, mid, es[n], pc);
      TryPath(locks, es[..n], mid);
      TryStep(locks, mid, es[n], pc);
      assert es == es[..n] + [es[n]];
    }
  }

  ghost predicate Begins(s: State, t: Thread, locks: seq<Mutex>, blocking: bool, s': State) {
    exists e :: Next(s, t, Begin(locks, blocking), e, s')
  }

  /** t called lock, or try_lock if not blocking, on locks in step i and is inside that call in state j. */
  ghost predicate Called(run: seq<State>, t: Thread, i: nat, j: nat, locks: seq<Mutex>, blocking: bool) {
    i < j < |run| && InCall(run, t, i + 1, j) && Begins(run[i], t, locks, blocking, run[i + 1])
  }

  lemma CallBegins(s: State, t: Thread, locks: seq<Mutex>, blocking: bool, e: Effect, s': State)
    requires Next(s, t, Begin(locks, blocking), e, s')
    ensures s'.calls[t].locks == locks && |locks| >= 1 && Distinct(locks) && s'.calls[t].base == HeldBy(s.calls[t])
    ensures s'.calls[t].pc == if blocking then LockHard(0) else TryAll(0)
  {
  }

  /**
   * `try_lock` answers k just when it took each mutex before k once, in order, could not take mutex k, and gave
   * the others back; it succeeds just when it took every one of them.
   */
  lemma TryLockAnswer(run: seq<State>, i: nat, j: nat, t: Thread, locks: seq<Mutex>) returns (es: seq<Effect>)
    requires IsRun(run) && Called(run, t, i, j, locks, false)
    ensures Does(run, t, i + 1, j, es)
    ensures var pc := run[j].calls[t].pc;
      && (pc.Failed? ==> pc.k < |locks| && es == FailedRange(locks, 0, pc.k, pc.k))
      && (pc.Returned? <==> es == Takes(locks, 0, |locks|))
      && (pc.TryAll? || pc.UndoAll? || pc.Failed? || pc.Returned?)
  {
    var e :| Next(run[i], t, Begin(locks, false), e, run[i + 1]);
    CallBegins(run[i], t, locks, false, e, run[i + 1]);
    hide Next, Reaches, Does, IsRun;
    es := CallPath(run, t, i + 1, j);
    TryPath(locks, es, run[j].calls[t].pc);
    if !run[j].calls[t].pc.Returned? { NotAllTaken(locks, run[j].calls[t].pc); }
  }

  lemma NotAllTaken(locks: seq<Mutex>, pc: Pc)
    requires PcOk(|locks|, pc) && Trying(pc) && !pc.Returned?
    ensures TriedSoFar(locks, pc) != Takes(locks, 0, |locks|)
  {
    if !pc.TryAll? {
      assert TriedSoFar(locks, pc)[pc.k] == Nothing;
      TakesAt(locks, 0, |locks|, pc.k);
    }
  }

  lemma {:induction false} TakesAt(locks: seq<Mutex>, a: nat, b: nat, i: nat)
    requires a <= b <= |locks| && i < b - a
    ensures Takes(locks, a, b)[i] == Take(locks[a + i])
    decreases b
  {
    if i < b - a - 1 { TakesAt(locks, a, b - 1, i); }
  }

  // lock

  /** The mutex a call blocks on after the tries in fails, the indices it could not take, have failed. */
  ghost function Hard(fails: seq<nat>): nat {
    if fails == [] then 0 else fails[|fails| - 1]
  }

  /** Each failed try is of a mutex of the call other than the one held since the round began. */
  ghost predicate Possible(n: nat, fails: seq<nat>)
    decreases |fails|
  {
    fails != [] ==>
      var before, k := fails[..|fails| - 1], fails[|fails| - 1];
      Possible(n, before) && k < n && k != Hard(before)
  }

  /** A round blocked on h whose try of k fails, as far as the tries: h, those before it in order, those after it. */
  ghost function Tried(locks: seq<Mutex>, h: nat, k: nat): seq<Effect>
    requires h < |locks| && k <= |locks| && k != h
  {
    if k < h then [Take(locks[h])] + Takes(locks, 0, k)
    else [Take(locks[h])] + Takes(locks, 0, h) + Takes(locks, h + 1, k)
  }

  /** ... and the whole of it: what was taken is given back, the range of the failed try first. */
  ghost function FailedRound(locks: seq<Mutex>, h: nat, k: nat): seq<Effect>
    requires h < |locks| && k < |locks| && k != h
  {
    Tried(locks, h, k) + [Nothing]
    + (if k < h then Releases(locks, 0, k) + Releases(locks, h, h + 1)
       else Releases(locks, h + 1, k) + Releases(locks, 0, h + 1))
  }

  ghost function Rounds(locks: seq<Mutex>, fails: seq<nat>): seq<Effect>
    requires |locks| >= 1 && Possible(|locks|, fails)
    decreases |fails|
  {
    if fails == [] then []
    else
      var before := fails[..|fails| - 1];
      HardInRange(|locks|, before);
      Rounds(locks, before) + FailedRound(locks, Hard(before), Hard(fails))
  }

  lemma HardInRange(n: nat, fails: seq<nat>)
    requires n >= 1 && Possible(n, fails)
    ensures Hard(fails) < n
  {
  }

  predicate Locking(pc: Pc) {
    pc.LockHard? || pc.TryLow? || pc.UndoLow? || pc.TryHigh? || pc.UndoHigh? || pc.Backout? || pc.Returned?
  }

  /** What the current round, blocked on h, has done by pc. */
  ghost function RoundSoFar(locks: seq<Mutex>, h: nat, pc: Pc): seq<Effect>
    requires h < |locks| && PcOk(|locks|, pc) && Locking(pc) && InRound(h, pc)
  {
    match pc
    case LockHard(_) => []
    case TryLow(_, k) => Tried(locks, h, k)
    case UndoLow(_, k, u) => Tried(locks, h, k) + [Nothing] + Releases(locks, 0, u)
    case TryHigh(_, k) => Tried(locks, h, k)
    case UndoHigh(_, k, u) => Tried(locks, h, k) + [Nothing] + Releases(locks, h + 1, u)
    case Backout(_, u, k) =>
      Tried(locks, h, k) + [Nothing]
      + (if k < h then Releases(locks, 0, k) + Releases(locks, h, u)
         else Releases(locks, h + 1, k) + Releases(locks, 0, u))
    case _ => [Take(locks[h])] + Takes(locks, 0, h) + Takes(locks, h + 1, |locks|)
  }

  predicate InRound(h: nat, pc: Pc) {
    match pc
    case LockHard(g) => g == h
    case TryLow(g, k) => g == h
    case UndoLow(g, k, u) => g == h
    case TryHigh(g, k) => g == h
    case UndoHigh(g, k, u) => g == h
    case Backout(g, u, k) => g == h && k != h && (k < h ==> h <= u)
    case _ => true
  }

  /** One more mutex taken: the next try skips the one held since the round began. */
  lemma TriedMore(locks: seq<Mutex>, h: nat, k: nat)
    requires h < |locks| && k < |locks| && k != h
    ensures Tried(locks, h, if k + 1 == h then h + 1 else k + 1) == Tried(locks, h, k) + [Take(locks[k])]
  {
  }

  /** What a round has done when it is about to try mutex k, in the range before h or behind it. */
  lemma AtLow(locks: seq<Mutex>, h: nat, k: nat)
    requires k <= h < |locks|
    ensures var pc := AfterLow(|locks|, h, k);
      && PcOk(|locks|, pc) && Locking(pc) && InRound(h, pc) && !pc.LockHard?
      && RoundSoFar(locks, h, pc) == Tried(locks, h, if k == h then h + 1 else k)
  {
  }

  lemma AtHigh(locks: seq<Mutex>, h: nat, k: nat)
    requires h < k <= |locks|
    ensures var pc := AfterHigh(|locks|, h, k);
      && PcOk(|locks|, pc) && Locking(pc) && InRound(h, pc) && !pc.LockHard?
      && RoundSoFar(locks, h, pc) == Tried(locks, h, k)
  {
  }

  /** ... and when it has given back the first ones of the range whose try of k failed. */
  lemma AtUndoLow(locks: seq<Mutex>, h: nat, k: nat, u: nat)
    requires u <= k < h < |locks|
    ensures var pc := AfterUndoLow(h, k, u);
      && PcOk(|locks|, pc) && Locking(pc) && InRound(h, pc) && !pc.LockHard?
      && RoundSoFar(locks, h, pc) == Tried(locks, h, k) + [Nothing] + Releases(locks, 0, u)
  {
    assert Releases(locks, h, h) == [];
    hide Tried;
  }

  lemma AtUndoHigh(locks: seq<Mutex>, h: nat, k: nat, u: nat)
    requires h < u <= k < |locks|
    ensures var pc := AfterUndoHigh(h, k, u);
      && PcOk(|locks|, pc) && Locking(pc) && InRound(h, pc) && !pc.LockHard?
      && RoundSoFar(locks, h, pc) == Tried(locks, h, k) + [Nothing] + Releases(locks, h + 1, u)
  {
    assert Releases(locks, 0, 0) == [];
    hide Tried;
  }

  // A step from each program point adds its effect to what the round has done.

  lemma FirstTaken(locks: seq<Mutex>, h: nat)
    requires h < |locks|
    ensures Tried(locks, h, if h == 0 then 1 else 0) == [] + [Take(locks[h])]
  {
  }

  ghost predicate Extends(locks: seq<Mutex>, h: nat, pc: Pc, e: Effect, pc': Pc)
    requires h < |locks| && PcOk(|locks|, pc) && Locking(pc) && InRound(h, pc)
  {
    && PcOk(|locks|, pc') && Locking(pc') && InRound(h, pc')
    && RoundSoFar(locks, h, pc') == RoundSoFar(locks, h, pc) + [e]
  }

  lemma HardStep(locks: seq<Mutex>, h: nat)
    requires h < |locks|
    ensures Extends(locks, h, LockHard(h), Take(locks[h]), AfterLow(|locks|, h, 0))
  {
    hide Tried, AfterLow;
    AtLow(locks, h, 0);
    FirstTaken(locks, h);
  }

  lemma LowTaken(locks: seq<Mutex>, h: nat, k: nat)
    requires k < h < |locks|
    ensures Extends(locks, h, TryLow(h, k), Take(locks[k]), AfterLow(|locks|, h, k + 1))
  {
    hide Tried, AfterLow;
    AtLow(locks, h, k + 1);
    TriedMore(locks, h, k);
  }

  lemma HighTaken(locks: seq<Mutex>, h: nat, k: nat)
    requires h < k < |locks|
    ensures Extends(locks, h, TryHigh(h, k), Take(locks[k]), AfterHigh(|locks|, h, k + 1))
  {
    hide Tried, AfterHigh;
    AtHigh(locks, h, k + 1);
    TriedMore(locks, h, k);
  }

  lemma LowUndone(locks: seq<Mutex>, h: nat, k: nat, u: nat)
    requires u < k < h < |locks|
    ensures Extends(locks, h, UndoLow(h, k, u), Release(locks[u]), AfterUndoLow(h, k, u + 1))
  {
    hide Tried, AfterUndoLow;
    AtUndoLow(locks, h, k, u + 1);
    Regrouped(Tried(locks, h, k) + [Nothing], Releases(locks, 0, u), [Release(locks[u])]);
  }

  lemma HighUndone(locks: seq<Mutex>, h: nat, k: nat, u: nat)
    requires h < u < k < |locks|
    ensures Extends(locks, h, UndoHigh(h, k, u), Release(locks[u]), AfterUndoHigh(h, k, u + 1))
  {
    hide Tried, AfterUndoHigh;
    AtUndoHigh(locks, h, k, u + 1);
    Regrouped(Tried(locks, h, k) + [Nothing], Releases(locks, h + 1, u), [Release(locks[u])]);
  }

  lemma TryFails(locks: seq<Mutex>, h: nat, k: nat)
    requires h < |locks| && k < |locks|
    ensures k < h ==> Extends(locks, h, TryLow(h, k), Nothing, AfterUndoLow(h, k, 0))
    ensures k > h ==> Extends(locks, h, TryHigh(h, k), Nothing, AfterUndoHigh(h, k, h + 1))
  {
    hide Tried, AfterUndoLow, AfterUndoHigh;
    if k < h { AtUndoLow(locks, h, k, 0); }
    if k > h { AtUndoHigh(locks, h, k, h + 1); }
  }

  lemma BackoutStep(locks: seq<Mutex>, h: nat, u: nat, k: nat)
    requires PcOk(|locks|, Backout(h, u, k)) && InRound(h, Backout(h, u, k)) && u < h
    ensures Extends(locks, h, Backout(h, u, k), Release(locks[u]), Backout(h, u + 1, k))
  {
    hide Tried;
    var done, undone := Tried(locks, h, k) + [Nothing], Releases(locks, h + 1, k);
    Regrouped(undone, Releases(locks, 0, u), [Release(locks[u])]);
    Regrouped(done, undone + Releases(locks, 0, u), [Release(locks[u])]);
  }

  /** A step stays in the round and adds its effect, ... */
  lemma RoundGoesOn(locks: seq<Mutex>, h: nat, pc: Pc, e: Effect, pc': Pc)
    requires h < |locks| && PcOk(|locks|, pc) && Locking(pc) && InRound(h, pc) && Move(locks, pc, e, pc')
    requires !pc'.LockHard?
    ensures Extends(locks, h, pc, e, pc')
  {
    hide Extends, RoundSoFar, AfterLow, AfterHigh, AfterUndoLow, AfterUndoHigh;
    match pc {
      case LockHard(_) => HardStep(locks, h);
      case TryLow(_, k) => if e == Nothing { TryFails(locks, h, k); } else { LowTaken(locks, h, k); }
      case UndoLow(_, k, u) => LowUndone(locks, h, k, u);
      case TryHigh(_, k) => if e == Nothing { TryFails(locks, h, k); } else { HighTaken(locks, h, k); }
      case UndoHigh(_, k, u) => HighUndone(locks, h, k, u);
      case Backout(_, u, k) => BackoutStep(locks, h, u, k);
    }
  }

  /** ... or ends it, and then the next round blocks on the mutex whose try failed. */
  lemma RoundEnds(locks: seq<Mutex>, h: nat, pc: Pc, e: Effect, pc': Pc) returns (k: nat)
    requires h < |locks| && PcOk(|locks|, pc) && Locking(pc) && InRound(h, pc) && Move(locks, pc, e, pc')
    requires pc'.LockHard?
    ensures k < |locks| && k != h && pc' == LockHard(k)
    ensures FailedRound(locks, h, k) == RoundSoFar(locks, h, pc) + [e]
  {
    k := pc.failed;
  }

  /** The call has gone through the failed rounds and is in the one after them. */
  ghost predicate LockedSoFar(locks: seq<Mutex>, fails: seq<nat>, es: seq<Effect>, pc: Pc) {
    && |locks| >= 1 && Possible(|locks|, fails) && Hard(fails) < |locks|
    && PcOk(|locks|, pc) && Locking(pc) && InRound(Hard(fails), pc)
    && es == Rounds(locks, fails) + RoundSoFar(locks, Hard(fails), pc)
  }

  lemma LockStep(locks: seq<Mutex>, fails: seq<nat>, es: seq<Effect>, pc: Pc, e: Effect, pc': Pc)
    returns (fails': seq<nat>)
    requires LockedSoFar(locks, fails, es, pc) && Move(locks, pc, e, pc')
    ensures LockedSoFar(locks, fails', es + [e], pc')
  {
    hide Move, PcOk, Locking, InRound, RoundSoFar, Rounds, FailedRound;
    var h := Hard(fails);
    if pc'.LockHard? {
      var k := RoundEnds(locks, h, pc, e, pc');
      fails' := fails + [k];
      NewRound(locks, k);
      OneMoreRound(locks, fails, k);
      Regrouped(Rounds(locks, fails), RoundSoFar(locks, h, pc), [e]);
      assert Rounds(locks, fails') + [] == Rounds(locks, fails');
    } else {
      RoundGoesOn(locks, h, pc, e, pc');
      fails' := fails;
      Regrouped(Rounds(locks, fails), RoundSoFar(locks, h, pc), [e]);
    }
  }

  lemma OneMoreRound(locks: seq<Mutex>, fails: seq<nat>, k: nat)
    requires |locks| >= 1 && Possible(|locks|, fails) && Hard(fails) < |locks| && k < |locks| && k != Hard(fails)
    ensures Possible(|locks|, fails + [k]) && Hard(fails + [k]) == k
    ensures Rounds(locks, fails + [k]) == Rounds(locks, fails) + FailedRound(locks, Hard(fails), k)
  {
    assert (fails + [k])[..|fails + [k]| - 1] == fails;
    hide FailedRound;
  }

  lemma NewRound(locks: seq<Mutex>, k: nat)
    requires k < |locks|
    ensures PcOk(|locks|, LockHard(k)) && Locking(LockHard(k)) && InRound(k, LockHard(k))
    ensures RoundSoFar(locks, k, LockHard(k)) == []
  {
  }

  lemma {:induction false} LockPath(locks: seq<Mutex>, es: seq<Effect>, pc: Pc) returns (fails: seq<nat>)
    requires |locks| >= 1 && Reaches(locks, LockHard(0), es, pc)
    ensures LockedSoFar(locks, fails, es, pc)
    decreases |es|
  {
    hide Move, LockedSoFar;
    if es == [] {
      fails := [];
      StartsLocking(locks);
    } else {
      var n := |es| - 1;
      var mid :| PcOk(|locks|, mid) && Reaches(locks, LockHard(0), es[..n], mid) && Move(locks, mid, es[n], pc);
      fails := LockPath(locks, es[..n], mid);
      fails := LockStep(locks, fails, es[..n], mid, es[n], pc);
      assert es == es[..n] + [es[n]];
    }
  }

  lemma StartsLocking(locks: seq<Mutex>)
    requires |locks| >= 1
    ensures LockedSoFar(locks, [], [], LockHard(0))
  {
  }

  /**
   * A call of `lock` is a number of failed rounds, each blocking on the mutex whose try failed in the round before,
   * and it returns at the end of a round in which it took every mutex; it never ends in any other way.
   */
  lemma LockHistory(run: seq<State>, i: nat, j: nat, t: Thread, locks: seq<Mutex>)
    returns (es: seq<Effect>, fails: seq<nat>)
    requires IsRun(run) && Called(run, t, i, j, locks, true)
    ensures Does(run, t, i + 1, j, es) && |locks| >= 1 && Possible(|locks|, fails) && Hard(fails) < |locks|
    ensures var pc, h := run[j].calls[t].pc, Hard(fails);
      && Locking(pc)
      && (pc.LockHard? ==> pc == LockHard(h) && es == Rounds(locks, fails))
      && (pc.Returned? ==>
            es == Rounds(locks, fails) + ([Take(locks[h])] + Takes(locks, 0, h) + Takes(locks, h + 1, |locks|)))
  {
    var e :| Next(run[i], t, Begin(locks, true), e, run[i + 1]);
    CallBegins(run[i], t, locks, true, e, run[i + 1]);
    hide Next, Reaches, Does, IsRun;
    es := CallPath(run, t, i + 1, j);
    fails := LockPath(locks, es, run[j].calls[t].pc);
    hide Rounds, Takes;
  }

  /** When a call of `lock` is left, the thread owns every mutex of the call and all it owned before. */
  lemma LockReturnsWithAll(run: seq<State>, i: nat, j: nat, t: Thread, locks: seq<Mutex>, e: Effect, m: Mutex)
    requires IsRun(run) && Called(run, t, i, j, locks, true) && j + 1 < |run| && Next(run[j], t, Leave, e, run[j + 1])
    requires m in locks || (m in run[i].owner && run[i].owner[m] == t)
    ensures m in run[j + 1].owner && run[j + 1].owner[m] == t
  {
    var b :| Next(run[i], t, Begin(locks, true), b, run[i + 1]);
    CallBegins(run[i], t, locks, true, b, run[i + 1]);
    RunKeepsInv(run, i);
    OwnedIsHeld(run[i], t, m);
    LeavesOwners(run[j], t, e, run[j + 1]);
    hide Next, Inv, IsRun, Does, HeldBy, Rounds, Takes;
    var es, fails := LockHistory(run, i, j, t, locks);
    var es' := CallPath(run, t, i + 1, j);
    if m !in locks { CallKeepsEarlier(run, i + 1, j, t, m); }
    CallOutcome(run, j, t, m);
  }

  lemma OwnedIsHeld(s: State, t: Thread, m: Mutex)
    requires Inv(s) && t in s.calls
    ensures (m in s.owner && s.owner[m] == t) <==> m in HeldBy(s.calls[t])
  {
  }

  lemma LeavesOwners(s: State, t: Thread, e: Effect, s': State)
    requires Next(s, t, Leave, e, s')
    ensures s'.owner == s.owner && (s.calls[t].pc.Returned? || s.calls[t].pc.Failed?)
  {
    hide CallOk, HeldBy;
  }
}
