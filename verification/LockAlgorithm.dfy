/** `lock(...)` and `try_lock(...)` on several mutexes, as a step system of any number of threads. */
module LockAlgorithm {
  import opened Sequences

  type Thread = nat
  type Mutex = nat

  /**
   * Where a thread is inside a call, one atomic mutex operation per step; h is hardLockIndex.
   * TryLow and TryHigh are the two calls of `_try_lock_range`, UndoLow and UndoHigh its own back-outs, and
   * Backout the unlocking loop of `lock`. TryAll and UndoAll belong to `try_lock`.
   */
  datatype Pc =
    | Outside
    | LockHard(h: nat)
    | TryLow(h: nat, k: nat)
    | UndoLow(h: nat, k: nat, u: nat)
    | TryHigh(h: nat, k: nat)
    | UndoHigh(h: nat, k: nat, u: nat)
    | Backout(h: nat, u: nat, failed: nat)
    | Returned
    | TryAll(k: nat)
    | UndoAll(k: nat, u: nat)
    | Failed(k: nat)

  /** A thread's current or last call, and the mutexes it held before the call. */
  datatype Call = Call(locks: seq<Mutex>, pc: Pc, base: set<Mutex>)

  datatype State = State(owner: map<Mutex, Thread>, calls: map<Thread, Call>)

  /** The indices a call has locked at its program point. */
  predicate HasIndex(n: nat, pc: Pc, i: nat) {
    match pc
    case Outside => false
    case LockHard(h) => false
    case TryLow(h, k) => i == h || i < k
    case UndoLow(h, k, u) => i == h || u <= i < k
    case TryHigh(h, k) => i < k
    case UndoHigh(h, k, u) => i <= h || u <= i < k
    case Backout(h, u, failed) => u <= i <= h
    case Returned => i < n
    case TryAll(k) => i < k
    case UndoAll(k, u) => u <= i < k
    case Failed(k) => false
  }

  predicate PcOk(n: nat, pc: Pc) {
    match pc
    case Outside => true
    case LockHard(h) => h < n
    case TryLow(h, k) => k < h < n
    case UndoLow(h, k, u) => u < k < h < n
    case TryHigh(h, k) => h < k < n
    case UndoHigh(h, k, u) => h < u < k < n
    case Backout(h, u, failed) => u <= h < n && failed < n
    case Returned => true
    case TryAll(k) => k < n
    case UndoAll(k, u) => u < k < n
    case Failed(k) => k < n
  }

  /** Everything a thread holds, as its program point says. */
  ghost function HeldBy(c: Call): set<Mutex> {
    c.base + set i: nat | i < |c.locks| && HasIndex(|c.locks|, c.pc, i) :: c.locks[i]
  }

  ghost predicate CallOk(c: Call) {
    && Distinct(c.locks) && PcOk(|c.locks|, c.pc)
    && (c.pc != Outside ==> forall i :: 0 <= i < |c.locks| ==> c.locks[i] !in c.base)
  }

  /** A thread owns exactly the mutexes its program point says it holds. */
  ghost predicate Inv(s: State) {
    && (forall t :: t in s.calls ==> CallOk(s.calls[t]))
    && (forall m :: m in s.owner ==> s.owner[m] in s.calls)
    && (forall t, m :: t in s.calls ==> ((m in s.owner && s.owner[m] == t) <==> m in HeldBy(s.calls[t])))
  }

  // Where the control flow goes next

  function AfterHigh(n: nat, h: nat, k: nat): Pc { if k == n then Returned else TryHigh(h, k) }

  function AfterLow(n: nat, h: nat, k: nat): Pc { if k == h then AfterHigh(n, h, h + 1) else TryLow(h, k) }

  /** After `_try_lock_range` has failed at k and undone up to u, `lock` backs out from backoutStart. */
  function AfterUndoLow(h: nat, k: nat, u: nat): Pc { if u == k then Backout(h, h, k) else UndoLow(h, k, u) }

  function AfterUndoHigh(h: nat, k: nat, u: nat): Pc { if u == k then Backout(h, 0, k) else UndoHigh(h, k, u) }

  function AfterBackout(h: nat, u: nat, failed: nat): Pc {
    if u == h + 1 then LockHard(failed) else Backout(h, u, failed)
  }

  function AfterAll(n: nat, k: nat): Pc { if k == n then Returned else TryAll(k) }

  function AfterUndoAll(k: nat, u: nat): Pc { if u == k then Failed(k) else UndoAll(k, u) }

  /** What a thread does to the mutexes: takes one that is free, releases one, or nothing. */
  datatype Effect = Take(m: Mutex) | Release(m: Mutex) | Nothing

  /** The moves of a thread from a program point inside a call over the mutexes locks. */
  ghost predicate Move(locks: seq<Mutex>, pc: Pc, e: Effect, pc': Pc)
    requires PcOk(|locks|, pc)
  {
    var n := |locks|;
    match pc
    case Outside => false
    case LockHard(h) => e == Take(locks[h]) && pc' == AfterLow(n, h, 0)
    case TryLow(h, k) =>
      || (e == Take(locks[k]) && pc' == AfterLow(n, h, k + 1))
      || (e == Nothing && pc' == AfterUndoLow(h, k, 0))
    case UndoLow(h, k, u) => e == Release(locks[u]) && pc' == AfterUndoLow(h, k, u + 1)
    case TryHigh(h, k) =>
      || (e == Take(locks[k]) && pc' == AfterHigh(n, h, k + 1))
      || (e == Nothing && pc' == AfterUndoHigh(h, k, h + 1))
    case UndoHigh(h, k, u) => e == Release(locks[u]) && pc' == AfterUndoHigh(h, k, u + 1)
    case Backout(h, u, failed) => e == Release(locks[u]) && pc' == AfterBackout(h, u + 1, failed)
    case Returned => false
    case TryAll(k) =>
      || (e == Take(locks[k]) && pc' == AfterAll(n, k + 1))
      || (e == Nothing && pc' == AfterUndoAll(k, 0))
    case UndoAll(k, u) => e == Release(locks[u]) && pc' == AfterUndoAll(k, u + 1)
    case Failed(k) => false
  }

  lemma MoveOk(locks: seq<Mutex>, pc: Pc, e: Effect, pc': Pc)
    requires PcOk(|locks|, pc) && Move(locks, pc, e, pc')
    ensures PcOk(|locks|, pc')
  {
  }

  /** A move changes the set of indices held by exactly its effect. */
  lemma TakingHolds(locks: seq<Mutex>, pc: Pc, e: Effect, pc': Pc, i: nat)
    requires PcOk(|locks|, pc) && Move(locks, pc, e, pc') && Distinct(locks) && i < |locks|
    requires pc.LockHard? || pc.TryLow? || pc.TryHigh? || pc.TryAll?
    ensures HasIndex(|locks|, pc', i) <==> (HasIndex(|locks|, pc, i) && e != Release(locks[i])) || e == Take(locks[i])
    ensures e == Take(locks[i]) ==> !HasIndex(|locks|, pc, i)
    ensures e == Release(locks[i]) ==> HasIndex(|locks|, pc, i)
  {
  }

  lemma UndoingHolds(locks: seq<Mutex>, pc: Pc, e: Effect, pc': Pc, i: nat)
    requires PcOk(|locks|, pc) && Move(locks, pc, e, pc') && Distinct(locks) && i < |locks|
    requires !(pc.LockHard? || pc.TryLow? || pc.TryHigh? || pc.TryAll?)
    ensures HasIndex(|locks|, pc', i) <==> (HasIndex(|locks|, pc, i) && e != Release(locks[i])) || e == Take(locks[i])
    ensures e == Take(locks[i]) ==> !HasIndex(|locks|, pc, i)
    ensures e == Release(locks[i]) ==> HasIndex(|locks|, pc, i)
  {
  }

  lemma MoveHolds(locks: seq<Mutex>, pc: Pc, e: Effect, pc': Pc, i: nat)
    requires PcOk(|locks|, pc) && Move(locks, pc, e, pc') && Distinct(locks) && i < |locks|
    ensures HasIndex(|locks|, pc', i) <==> (HasIndex(|locks|, pc, i) && e != Release(locks[i])) || e == Take(locks[i])
    ensures e == Take(locks[i]) ==> !HasIndex(|locks|, pc, i)
    ensures e == Release(locks[i]) ==> HasIndex(|locks|, pc, i)
  {
    hide Move, PcOk, HasIndex, Distinct;
    if pc.LockHard? || pc.TryLow? || pc.TryHigh? || pc.TryAll? {
      TakingHolds(locks, pc, e, pc', i);
    } else {
      UndoingHolds(locks, pc, e, pc', i);
    }
  }

  lemma MoveTouches(locks: seq<Mutex>, pc: Pc, e: Effect, pc': Pc)
    requires PcOk(|locks|, pc) && Move(locks, pc, e, pc')
    ensures e != Nothing ==> e.m in locks
    ensures pc != Outside && pc' != Outside
  {
  }

  // Steps and runs of the whole system

  datatype Action =
    | Inside(e: Effect, pc': Pc)                     // one step of a call
    | Begin(locks: seq<Mutex>, blocking: bool)       // call lock, or try_lock if not blocking
    | Leave                                          // back to the caller
    | TakeOne(m: Mutex)                              // a single free mutex taken outside the calls
    | ReleaseOne(m: Mutex)                           // any mutex released outside the calls

  /** The caller's side of the algorithm: at least one mutex, all different, none held already. */
  ghost predicate MayBegin(c: Call, locks: seq<Mutex>) {
    && c.pc == Outside && |locks| >= 1 && Distinct(locks)
    && forall i :: 0 <= i < |locks| ==> locks[i] !in HeldBy(c)
  }

  /** Mutexes are exclusive: only a free one is taken, only an owner releases. */
  ghost predicate CanApply(owner: map<Mutex, Thread>, t: Thread, e: Effect) {
    match e
    case Take(m) => m !in owner
    case Release(m) => m in owner && owner[m] == t
    case Nothing => true
  }

  function Apply(owner: map<Mutex, Thread>, t: Thread, e: Effect): map<Mutex, Thread> {
    match e
    case Take(m) => owner[m := t]
    case Release(m) => owner - {m}
    case Nothing => owner
  }

  ghost predicate Effective(c: Call, act: Action, e: Effect, c': Call)
    requires CallOk(c)
  {
    match act
    case Inside(f, pc') => e == f && Move(c.locks, c.pc, f, pc') && c' == c.(pc := pc')
    case Begin(locks, blocking) =>
      MayBegin(c, locks) && e == Nothing &&
        c' == Call(locks, if blocking then LockHard(0) else AfterAll(|locks|, 0), HeldBy(c))
    case Leave => (c.pc == Returned || c.pc.Failed?) && e == Nothing && c' == Call(c.locks, Outside, HeldBy(c))
    case TakeOne(m) => c.pc == Outside && e == Take(m) && c' == c.(base := c.base + {m})
    case ReleaseOne(m) => c.pc == Outside && e == Release(m) && c' == c.(base := c.base - {m})
  }

  ghost predicate Next(s: State, t: Thread, act: Action, e: Effect, s': State) {
    && t in s.calls && CallOk(s.calls[t]) && CanApply(s.owner, t, e)
    && t in s'.calls && Effective(s.calls[t], act, e, s'.calls[t])
    && s' == State(Apply(s.owner, t, e), s.calls[t := s'.calls[t]])
  }

  lemma InsideHolds(c: Call, e: Effect, pc': Pc, m: Mutex)
    requires CallOk(c) && Move(c.locks, c.pc, e, pc')
    ensures m in HeldBy(c.(pc := pc')) <==> (m in HeldBy(c) && e != Release(m)) || e == Take(m)
  {
    MoveTouches(c.locks, c.pc, e, pc');
    forall i: nat | i < |c.locks|
      ensures HasIndex(|c.locks|, pc', i) <==>
        (HasIndex(|c.locks|, c.pc, i) && e != Release(c.locks[i])) || e == Take(c.locks[i])
    {
      MoveHolds(c.locks, c.pc, e, pc', i);
    }
    hide Move, HasIndex, PcOk, Distinct;
    if m in c.locks {
      var i :| 0 <= i < |c.locks| && c.locks[i] == m;
    }
  }

  /** The holdings of a thread change by exactly the effect of its step. */
  lemma EffectiveHolds(c: Call, act: Action, e: Effect, c': Call, m: Mutex)
    requires CallOk(c) && Effective(c, act, e, c')
    ensures CallOk(c')
    ensures m in HeldBy(c') <==> (m in HeldBy(c) && e != Release(m)) || e == Take(m)
  {
    match act {
      case Inside(f, pc') =>
        MoveOk(c.locks, c.pc, e, pc');
        MoveTouches(c.locks, c.pc, e, pc');
        hide Move, PcOk;
        InsideHolds(c, e, pc', m);
      case Begin(locks, blocking) =>
      case Leave =>
      case TakeOne(x) =>
      case ReleaseOne(x) =>
    }
  }

  lemma OwnerAfter(s: State, t: Thread, e: Effect, s': State, u: Thread, m: Mutex)
    requires s'.owner == Apply(s.owner, t, e) && CanApply(s.owner, t, e)
    ensures (m in s'.owner && s'.owner[m] == u) <==>
      if u == t then (m in s.owner && s.owner[m] == t && e != Release(m)) || e == Take(m)
      else m in s.owner && s.owner[m] == u
  {
  }

  lemma OwnersStayKnown(s: State, t: Thread, act: Action, e: Effect, s': State)
    requires Inv(s) && Next(s, t, act, e, s')
    ensures forall m :: m in s'.owner ==> s'.owner[m] in s'.calls
  {
    hide CallOk, HeldBy, Effective;
  }

  lemma HoldsAfter(s: State, t: Thread, act: Action, e: Effect, s': State, u: Thread, m: Mutex)
    requires Inv(s) && Next(s, t, act, e, s') && u in s'.calls
    ensures CallOk(s'.calls[u])
    ensures (m in s'.owner && s'.owner[m] == u) <==> m in HeldBy(s'.calls[u])
  {
    hide CallOk, HeldBy, Effective, Apply, CanApply;
    EffectiveHolds(s.calls[t], act, e, s'.calls[t], m);
    OwnerAfter(s, t, e, s', u, m);
    assert u in s.calls;
  }

  lemma AllHold(s: State, t: Thread, act: Action, e: Effect, s': State)
    requires Inv(s) && Next(s, t, act, e, s')
    ensures forall u, m :: u in s'.calls ==> ((m in s'.owner && s'.owner[m] == u) <==> m in HeldBy(s'.calls[u]))
    ensures forall u :: u in s'.calls ==> CallOk(s'.calls[u])
  {
    hide *;
    forall u | u in s'.calls ensures CallOk(s'.calls[u]) {
      HoldsAfter(s, t, act, e, s', u, 0);
    }
    forall u, m | u in s'.calls ensures (m in s'.owner && s'.owner[m] == u) <==> m in HeldBy(s'.calls[u]) {
      HoldsAfter(s, t, act, e, s', u, m);
    }
  }

  /** Every step keeps every thread's ownership in line with its program point. */
  lemma NextKeepsInv(s: State, t: Thread, act: Action, e: Effect, s': State)
    requires Inv(s) && Next(s, t, act, e, s')
    ensures Inv(s')
  {
    OwnersStayKnown(s, t, act, e, s');
    AllHold(s, t, act, e, s');
    hide CallOk, HeldBy, Next;
  }

  /** No mutex owned and every thread outside. */
  ghost predicate Initial(s: State) {
    s.owner == map[] && forall t :: t in s.calls ==> s.calls[t] == Call([], Outside, {})
  }

  ghost predicate Steps(s: State, s': State) {
    exists t, act, e :: Next(s, t, act, e, s')
  }

  ghost predicate IsRun(run: seq<State>) {
    && run != [] && Initial(run[0])
    && forall i :: 0 < i < |run| ==> Steps(run[i - 1], run[i])
  }

  /** In every state of every run, whatever the interleaving. */
  lemma {:induction false} RunKeepsInv(run: seq<State>, i: nat)
    requires IsRun(run) && i < |run|
    ensures Inv(run[i])
  {
    if i > 0 {
      RunKeepsInv(run, i - 1);
      var t, act, e :| Next(run[i - 1], t, act, e, run[i]);
      NextKeepsInv(run[i - 1], t, act, e, run[i]);
    }
  }

  // What the algorithm promises

  ghost predicate Blocked(s: State, t: Thread) {
    && t in s.calls && s.calls[t].pc.LockHard?
    && s.calls[t].pc.h < |s.calls[t].locks| && s.calls[t].locks[s.calls[t].pc.h] in s.owner
  }

  ghost predicate WaitsFor(s: State, t: Thread, u: Thread) {
    Blocked(s, t) && s.owner[s.calls[t].locks[s.calls[t].pc.h]] == u
  }

  lemma HoldsBase(c: Call)
    ensures c.pc.LockHard? || c.pc.Failed? || c.pc == Outside ==> HeldBy(c) == c.base
  {
  }

  lemma HoldsAll(c: Call)
    ensures c.pc == Returned ==> HeldBy(c) == c.base + set m | m in c.locks
  {
    if c.pc == Returned {
      forall m | m in c.locks ensures m in HeldBy(c) {
        var j :| 0 <= j < |c.locks| && c.locks[j] == m;
        assert HasIndex(|c.locks|, c.pc, j);
      }
    }
  }

  /** Waiting or failed, a call holds nothing beyond what the thread held before; returned, all of its mutexes too. */
  lemma CallOutcome(run: seq<State>, i: nat, t: Thread, m: Mutex)
    requires IsRun(run) && i < |run| && t in run[i].calls
    ensures var c := run[i].calls[t];
      && (c.pc.LockHard? || c.pc.Failed? || c.pc == Outside ==>
         ((m in run[i].owner && run[i].owner[m] == t) <==> m in c.base))
      && (c.pc == Returned ==> ((m in run[i].owner && run[i].owner[m] == t) <==> m in c.base || m in c.locks))
  {
    hide HeldBy, CallOk;
    RunKeepsInv(run, i);
    HoldsBase(run[i].calls[t]);
    HoldsAll(run[i].calls[t]);
  }

  lemma BaseIsKept(s: State, t: Thread, act: Action, e: Effect, s': State, u: Thread)
    requires Next(s, t, act, e, s') && u in s.calls
    ensures u in s'.calls &&
            (u != t || act.Inside? ==> s'.calls[u].base == s.calls[u].base && s'.calls[u].locks == s.calls[u].locks)
    ensures u == t && act.Begin? ==> s'.calls[u].base == HeldBy(s.calls[u]) && s'.calls[u].locks == act.locks
  {
    hide HeldBy;
  }

  /**
   * From any state of a run on, for as long as a thread has not left its call, it owns every mutex it held before
   * the call: backing out, failing and waiting give none of them away.
   */
  lemma {:induction false} CallKeepsEarlier(run: seq<State>, i: nat, j: nat, t: Thread, m: Mutex)
    requires IsRun(run) && i <= j < |run|
    requires forall k :: i <= k <= j ==> t in run[k].calls && run[k].calls[t].pc != Outside
    requires m in run[i].calls[t].base
    ensures run[j].calls[t].base == run[i].calls[t].base && run[j].calls[t].locks == run[i].calls[t].locks
    ensures m in run[j].owner && run[j].owner[m] == t
  {
    RunKeepsInv(run, j);
    hide Inv, CallOk, Steps, Next, HeldBy;
    if i < j {
      CallKeepsEarlier(run, i, j - 1, t, m);
      assert Steps(run[j - 1], run[j]);
      StepKeepsCall(run[j - 1], run[j], t);
    }
    HeldFromBefore(run[j].calls[t], m);
    Owns(run[j], t, m);
  }

  lemma StepKeepsCall(s: State, s': State, t: Thread)
    requires Steps(s, s') && t in s.calls && t in s'.calls && s.calls[t].pc != Outside && s'.calls[t].pc != Outside
    ensures s'.calls[t].base == s.calls[t].base && s'.calls[t].locks == s.calls[t].locks
  {
    var u, act, e :| Next(s, u, act, e, s');
    hide HeldBy, CallOk, Move;
    BaseIsKept(s, u, act, e, s', t);
  }

  lemma HeldFromBefore(c: Call, m: Mutex)
    requires m in c.base
    ensures m in HeldBy(c)
  {
  }

  /** The owner of the mutex a thread is blocked on is itself blocked only if it held that mutex before its call. */
  lemma WaitsForRunner(s: State, t: Thread, u: Thread)
    requires Inv(s) && WaitsFor(s, t, u)
    ensures u in s.calls && (Blocked(s, u) ==> s.calls[t].locks[s.calls[t].pc.h] in s.calls[u].base)
  {
    assert s.calls[t].locks[s.calls[t].pc.h] in HeldBy(s.calls[u]);
    HoldsBase(s.calls[u]);
  }

  /** Each thread of the cycle is blocked on a mutex of the next. */
  ghost predicate WaitCycle(s: State, cycle: seq<Thread>) {
    cycle != [] && forall j :: 0 <= j < |cycle| ==> WaitsFor(s, cycle[j], cycle[if j + 1 < |cycle| then j + 1 else 0])
  }

  /** In any cycle of blocked threads, every thread entered its call already holding the mutex waited for. */
  lemma CycleHeldBefore(run: seq<State>, i: nat, cycle: seq<Thread>, k: nat)
    requires IsRun(run) && i < |run| && WaitCycle(run[i], cycle) && k < |cycle|
    ensures cycle[k] in run[i].calls && run[i].calls[cycle[k]].base != {}
  {
    RunKeepsInv(run, i);
    var j := if k == 0 then |cycle| - 1 else k - 1;
    assert WaitsFor(run[i], cycle[j], cycle[if j + 1 < |cycle| then j + 1 else 0]);
    assert WaitsFor(run[i], cycle[k], cycle[if k + 1 < |cycle| then k + 1 else 0]);
    WaitsForRunner(run[i], cycle[j], cycle[k]);
  }

  /** In no state of any run is there a cycle of blocked threads one of which entered its call holding nothing. */
  lemma NoDeadlock(run: seq<State>, i: nat, cycle: seq<Thread>)
    requires IsRun(run) && i < |run|
    requires exists k :: 0 <= k < |cycle| && cycle[k] in run[i].calls && run[i].calls[cycle[k]].base == {}
    ensures !WaitCycle(run[i], cycle)
  {
    if WaitCycle(run[i], cycle) {
      var k :| 0 <= k < |cycle| && cycle[k] in run[i].calls && run[i].calls[cycle[k]].base == {};
      CycleHeldBefore(run, i, cycle, k);
    }
  }

  ghost predicate InsideCall(pc: Pc) {
    !(pc == Outside || pc == Returned || pc.Failed?)
  }

  ghost predicate Enabled(s: State, t: Thread) {
    exists act, e, s' :: Next(s, t, act, e, s')
  }

  /** A thread inside a call that is not blocked can take a step, and so can one whose call is over. */
  lemma UnblockedCanStep(s: State, t: Thread)
    requires Inv(s) && t in s.calls && s.calls[t].pc != Outside && !Blocked(s, t)
    ensures Enabled(s, t)
  {
    var c := s.calls[t];
    if !InsideCall(c.pc) {
      Witness(s, t, Leave, Nothing, Call(c.locks, Outside, HeldBy(c)));
    } else {
      var e, pc' := SomeMove(s, t);
      Witness(s, t, Inside(e, pc'), e, c.(pc := pc'));
    }
  }

  ghost predicate CanBegin(s: State, t: Thread, locks: seq<Mutex>, blocking: bool) {
    exists s' :: Next(s, t, Begin(locks, blocking), Nothing, s')
  }

  /** A thread outside can call either operation on any mutexes, if they are different and none is its own already. */
  lemma CallPossible(run: seq<State>, i: nat, t: Thread, locks: seq<Mutex>, blocking: bool)
    requires IsRun(run) && i < |run| && t in run[i].calls && run[i].calls[t].pc == Outside
    requires |locks| >= 1 && Distinct(locks)
    requires forall m :: m in locks ==> m !in run[i].owner || run[i].owner[m] != t
    ensures CanBegin(run[i], t, locks, blocking)
  {
    var s := run[i];
    RunKeepsInv(run, i);
    var c := s.calls[t];
    assert CallOk(c);
    forall j | 0 <= j < |locks| ensures locks[j] !in HeldBy(c) {
      if locks[j] in HeldBy(c) { Owns(s, t, locks[j]); }
    }
    hide Inv, IsRun, HeldBy, CallOk;
    var c' := Call(locks, if blocking then LockHard(0) else AfterAll(|locks|, 0), HeldBy(c));
    assert Next(s, t, Begin(locks, blocking), Nothing, s.(calls := s.calls[t := c']));
  }

  /** A thread outside that owns a mutex can release it. */
  lemma OwnerCanRelease(s: State, t: Thread, m: Mutex)
    requires Inv(s) && t in s.calls && s.calls[t].pc == Outside && m in HeldBy(s.calls[t])
    ensures Enabled(s, t)
  {
    var c := s.calls[t];
    Owns(s, t, m);
    Witness(s, t, ReleaseOne(m), Release(m), c.(base := c.base - {m}));
  }

  lemma BlockedCannotStep(s: State, t: Thread)
    requires Blocked(s, t)
    ensures !Enabled(s, t)
  {
    forall act, e, s' ensures !Next(s, t, act, e, s') {
      StepIsNotBlocked(s, t, act, e, s');
    }
  }

  lemma StepIsNotBlocked(s: State, t: Thread, act: Action, e: Effect, s': State)
    requires Blocked(s, t)
    ensures !Next(s, t, act, e, s')
  {
  }

  lemma Witness(s: State, t: Thread, act: Action, e: Effect, c': Call)
    requires t in s.calls && CallOk(s.calls[t]) && CanApply(s.owner, t, e) && Effective(s.calls[t], act, e, c')
    ensures Enabled(s, t)
  {
    hide CallOk, Effective, HeldBy;
    var s' := State(Apply(s.owner, t, e), s.calls[t := c']);
    assert Next(s, t, act, e, s');
  }

  lemma SomeMove(s: State, t: Thread) returns (e: Effect, pc': Pc)
    requires Inv(s) && t in s.calls && InsideCall(s.calls[t].pc) && !Blocked(s, t)
    ensures CallOk(s.calls[t]) && Move(s.calls[t].locks, s.calls[t].pc, e, pc') && CanApply(s.owner, t, e)
  {
    var c := s.calls[t];
    assert CallOk(c);
    hide Inv;
    e, pc' := NextMove(c, s.owner);
    if e.Release? {
      assert e.m in HeldBy(c);
      Owns(s, t, e.m);
    }
  }

  lemma Owns(s: State, t: Thread, m: Mutex)
    requires Inv(s) && t in s.calls && m in HeldBy(s.calls[t])
    ensures m in s.owner && s.owner[m] == t
  {
  }

  /** The step a call takes next: a try on a mutex takes it if it is free and fails if it is not. */
  lemma NextMove(c: Call, owner: map<Mutex, Thread>) returns (e: Effect, pc': Pc)
    requires CallOk(c) && InsideCall(c.pc) && (c.pc.LockHard? ==> c.locks[c.pc.h] !in owner)
    ensures Move(c.locks, c.pc, e, pc')
    ensures e.Take? ==> e.m !in owner
    ensures e.Release? ==> e.m in HeldBy(c)
    ensures c.pc.TryLow? || c.pc.TryHigh? || c.pc.TryAll? ==>
      e == if c.locks[c.pc.k] in owner then Nothing else Take(c.locks[c.pc.k])
  {
    var n := |c.locks|;
    match c.pc {
      case LockHard(h) => e, pc' := Take(c.locks[h]), AfterLow(n, h, 0);
      case TryLow(h, k) =>
        if c.locks[k] in owner {
          e, pc' := Nothing, AfterUndoLow(h, k, 0);
        } else {
          e, pc' := Take(c.locks[k]), AfterLow(n, h, k + 1);
        }
      case UndoLow(h, k, u) => e, pc' := Release(c.locks[u]), AfterUndoLow(h, k, u + 1);
      case TryHigh(h, k) =>
        if c.locks[k] in owner {
          e, pc' := Nothing, AfterUndoHigh(h, k, h + 1);
        } else {
          e, pc' := Take(c.locks[k]), AfterHigh(n, h, k + 1);
        }
      case UndoHigh(h, k, u) => e, pc' := Release(c.locks[u]), AfterUndoHigh(h, k, u + 1);
      case Backout(h, u, failed) => e, pc' := Release(c.locks[u]), AfterBackout(h, u + 1, failed);
      case TryAll(k) =>
        if c.locks[k] in owner {
          e, pc' := Nothing, AfterUndoAll(k, 0);
        } else {
          e, pc' := Take(c.locks[k]), AfterAll(n, k + 1);
        }
      case UndoAll(k, u) => e, pc' := Release(c.locks[u]), AfterUndoAll(k, u + 1);
    }
  }

  /** The owner of the mutex a thread is blocked on can take a step, if and only if it is not itself blocked. */
  lemma OwnerCanStep(run: seq<State>, i: nat, t: Thread, u: Thread)
    requires IsRun(run) && i < |run| && WaitsFor(run[i], t, u)
    ensures Enabled(run[i], u) <==> !Blocked(run[i], u)
    ensures Blocked(run[i], u) ==> u in run[i].calls && run[i].calls[u].base != {}
  {
    hide HeldBy, Enabled;
    RunKeepsInv(run, i);
    var s := run[i];
    WaitsForRunner(s, t, u);
    if Blocked(s, u) {
      BlockedCannotStep(s, u);
    } else if s.calls[u].pc == Outside {
      OwnerCanRelease(s, u, s.calls[t].locks[s.calls[t].pc.h]);
    } else {
      UnblockedCanStep(s, u);
    }
  }

  /** The system never gets stuck: whoever is blocked waits for a thread that can take a step. */
  lemma SomeoneCanStep(run: seq<State>, i: nat, t: Thread)
    requires IsRun(run) && i < |run| && Blocked(run[i], t)
    requires forall u :: u in run[i].calls && InsideCall(run[i].calls[u].pc) ==> run[i].calls[u].base == {}
    ensures exists u :: u in run[i].calls && WaitsFor(run[i], t, u) && Enabled(run[i], u)
  {
    RunKeepsInv(run, i);
    var u := run[i].owner[run[i].calls[t].locks[run[i].calls[t].pc.h]];
    OwnerCanStep(run, i, t, u);
  }

  // Progress whatever the threads held before: a chain of blocked threads ends at one that can step, or in a cycle.

  ghost predicate Chain(s: State, path: seq<Thread>) {
    && path != []
    && (forall j :: 0 <= j < |path| ==> path[j] in s.calls)
    && forall j :: 0 <= j < |path| - 1 ==> WaitsFor(s, path[j], path[j + 1])
  }

  lemma ChainGrows(s: State, path: seq<Thread>, u: Thread)
    requires Inv(s) && Chain(s, path) && WaitsFor(s, path[|path| - 1], u)
    ensures Chain(s, path + [u])
  {
    WaitsForRunner(s, path[|path| - 1], u);
    var longer := path + [u];
    forall j | 0 <= j < |longer| - 1 ensures WaitsFor(s, longer[j], longer[j + 1]) {
      assert longer[j] == path[j] && (j < |path| - 1 ==> longer[j + 1] == path[j + 1]);
    }
  }

  lemma CycleCloses(s: State, path: seq<Thread>, j: nat)
    requires Chain(s, path) && j < |path| && WaitsFor(s, path[|path| - 1], path[j])
    ensures WaitCycle(s, path[j..])
  {
    hide WaitsFor;
    var cycle := path[j..];
    forall k | 0 <= k < |cycle| ensures WaitsFor(s, cycle[k], cycle[if k + 1 < |cycle| then k + 1 else 0]) {
      assert cycle[k] == path[j + k] && (k + 1 < |cycle| ==> cycle[k + 1] == path[j + k + 1]);
    }
  }

  /** No more threads can be met than there are. */
  lemma {:induction false} ChainIsShort(path: seq<Thread>, threads: set<Thread>)
    requires Distinct(path) && forall j :: 0 <= j < |path| ==> path[j] in threads
    ensures |path| <= |threads|
    decreases |path|
  {
    if path != [] {
      ChainIsShort(path[1..], threads - {path[0]});
    }
  }

  lemma {:induction false} ChainEnds(run: seq<State>, i: nat, path: seq<Thread>) returns (chain: seq<Thread>)
    requires IsRun(run) && i < |run| && Inv(run[i]) && Chain(run[i], path) && Distinct(path)
    requires Blocked(run[i], path[|path| - 1])
    ensures Chain(run[i], chain) && chain[0] == path[0]
    ensures Enabled(run[i], chain[|chain| - 1]) || exists j :: 0 <= j < |chain| && WaitCycle(run[i], chain[j..])
    decreases |run[i].calls.Keys| - |path|
  {
    hide HeldBy, Inv, Enabled, IsRun;
    var s := run[i];
    var last := path[|path| - 1];
    var u := s.owner[s.calls[last].locks[s.calls[last].pc.h]];
    chain := path;
    if j :| 0 <= j < |path| && path[j] == u {
      CycleCloses(s, path, j);
    } else {
      OwnerCanStep(run, i, last, u);
      ChainGrows(s, path, u);
      ChainIsShort(path + [u], s.calls.Keys);
      chain := path + [u];
      if Blocked(s, u) {
        chain := ChainEnds(run, i, path + [u]);
      }
    }
  }

  /** From any blocked thread, whatever anyone held before, the owners lead to a thread that can step or in a circle. */
  lemma WaitChainEnds(run: seq<State>, i: nat, t: Thread)
    requires IsRun(run) && i < |run| && Blocked(run[i], t)
    ensures exists chain ::
      && Chain(run[i], chain) && chain[0] == t
      && (Enabled(run[i], chain[|chain| - 1]) || exists j :: 0 <= j < |chain| && WaitCycle(run[i], chain[j..]))
  {
    RunKeepsInv(run, i);
    hide Inv, Enabled, IsRun;
    var chain := ChainEnds(run, i, [t]);
  }
}
