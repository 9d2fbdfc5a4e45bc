/** `RecursiveSharedMutex` in the CONCURRENCY build, as a machine whose steps are its critical sections. */
module SharedMutex {
  import opened Common

  type Tid = int

  /** The fields guarded by `mutex_`. */
  datatype Lock = Lock(shared: int, exclusive: int, owner: Option<Tid>, recursion: int)

  datatype Outcome = Acquired | MustWait

  // ----- the critical sections -----

  /** One pass of the loop of `lock_shared`; also `try_lock_shared`, which gives up instead of waiting. */
  function TryShared(l: Lock): (Lock, Outcome) {
    if l.exclusive > 0 then (l, MustWait) else (l.(shared := l.shared + 1), Acquired)
  }

  /** One pass of the loop of `lock`. */
  function TryExclusive(l: Lock, me: Tid): (Lock, Outcome) {
    if l.shared > 0 || l.exclusive > 0 then
      if l.owner == Some(me) then (l.(recursion := l.recursion + 1), Acquired) else (l, MustWait)
    else (l.(owner := Some(me), recursion := 1, exclusive := l.exclusive + 1), Acquired)
  }

  /** `unlock_shared`; whether one exclusive waiter is notified. */
  function LeaveShared(l: Lock): (Lock, bool) {
    var l' := l.(shared := l.shared - 1);
    (l', l'.shared == 0)
  }

  /** `unlock`; whether all shared waiters and one exclusive waiter are notified. */
  function LeaveExclusive(l: Lock, me: Tid): (Lock, bool) {
    if l.owner == Some(me) && l.recursion > 1 then (l.(recursion := l.recursion - 1), false)
    else
      var l' := l.(owner := None, recursion := 0, exclusive := l.exclusive - 1);
      (l', l'.exclusive == 0)
  }

  // ----- the whole system -----

  /** The lock, the threads blocked on and woken from each condition variable, and the lock calls outstanding. */
  datatype State = State(
    lock: Lock,
    sharedWait: set<Tid>,
    sharedReady: set<Tid>,
    exclusiveWait: set<Tid>,
    exclusiveReady: set<Tid>,
    readers: multiset<Tid>,
    writers: multiset<Tid>)
  {
    predicate Idle(t: Tid) {
      t !in sharedWait && t !in sharedReady && t !in exclusiveWait && t !in exclusiveReady
    }
  }

  const INITIAL := State(Lock(0, 0, None, 0), {}, {}, {}, {}, multiset{}, multiset{})

  datatype Action =
    | LockShared(t: Tid)
    | ResumeShared(t: Tid)
    | TryLockShared(t: Tid)
    | UnlockShared(t: Tid, woken: Option<Tid>)
    | LockExclusive(t: Tid)
    | ResumeExclusive(t: Tid)
    | UnlockExclusive(t: Tid, woken: Option<Tid>)
    | SpuriousWake(t: Tid)

  /** `notify_one` wakes any one waiter, and nobody only when nobody waits. */
  predicate MayWake(waiting: set<Tid>, woken: Option<Tid>) {
    match woken
    case None => waiting == {}
    case Some(t) => t in waiting
  }

  function WakeExclusive(s: State, woken: Option<Tid>): State {
    match woken
    case None => s
    case Some(t) => s.(exclusiveWait := s.exclusiveWait - {t}, exclusiveReady := s.exclusiveReady + {t})
  }

  function EnterShared(s: State, t: Tid): State {
    var (l, o) := TryShared(s.lock);
    if o == Acquired then s.(lock := l, readers := s.readers + multiset{t}) else s.(sharedWait := s.sharedWait + {t})
  }

  function EnterExclusive(s: State, t: Tid): State {
    var (l, o) := TryExclusive(s.lock, t);
    if o == Acquired then s.(lock := l, writers := s.writers + multiset{t})
    else s.(exclusiveWait := s.exclusiveWait + {t})
  }

  /** Which actions are possible. Threads release only locks they hold; nothing else is assumed of them. */
  predicate Enabled(s: State, a: Action) {
    match a
    case LockShared(t) => s.Idle(t)
    case ResumeShared(t) => t in s.sharedReady
    case TryLockShared(t) => s.Idle(t)
    case UnlockShared(t, woken) =>
      && s.Idle(t) && t in s.readers
      && if LeaveShared(s.lock).1 then MayWake(s.exclusiveWait, woken) else woken == None
    case LockExclusive(t) => s.Idle(t)
    case ResumeExclusive(t) => t in s.exclusiveReady
    case UnlockExclusive(t, woken) =>
      && s.Idle(t) && t in s.writers
      && if LeaveExclusive(s.lock, t).1 then MayWake(s.exclusiveWait, woken) else woken == None
    case SpuriousWake(t) => t in s.sharedWait || t in s.exclusiveWait
  }

  function Next(s: State, a: Action): State
    requires Enabled(s, a)
  {
    match a
    case LockShared(t) => EnterShared(s, t)
    case ResumeShared(t) => EnterShared(s.(sharedReady := s.sharedReady - {t}), t)
    case TryLockShared(t) => if TryShared(s.lock).1 == Acquired then EnterShared(s, t) else s
    case UnlockShared(t, woken) =>
      WakeExclusive(s.(lock := LeaveShared(s.lock).0, readers := s.readers - multiset{t}), woken)
    case LockExclusive(t) => EnterExclusive(s, t)
    case ResumeExclusive(t) => EnterExclusive(s.(exclusiveReady := s.exclusiveReady - {t}), t)
    case UnlockExclusive(t, woken) =>
      var (l, notify) := LeaveExclusive(s.lock, t);
      var s' := s.(lock := l, writers := s.writers - multiset{t});
      if notify then WakeExclusive(s'.(sharedWait := {}, sharedReady := s.sharedReady + s.sharedWait), woken) else s'
    case SpuriousWake(t) =>
      if t in s.sharedWait then s.(sharedWait := s.sharedWait - {t}, sharedReady := s.sharedReady + {t})
      else WakeExclusive(s, Some(t))
  }

  // ----- what every step keeps -----

  /** The counters are exactly the outstanding calls. */
  ghost predicate CountersExact(s: State) {
    && s.lock.shared == |s.readers|
    && 0 <= s.lock.exclusive <= 1
    && (s.lock.exclusive == 0 ==> s.writers == multiset{} && s.lock.owner == None && s.lock.recursion == 0)
    && (s.lock.exclusive == 1 ==>
          && s.lock.owner.Some?
          && s.lock.recursion == s.writers[s.lock.owner.value] >= 1
          && forall t :: t in s.writers ==> t == s.lock.owner.value)
  }

  /** No reader together with a writer, and no two writers. */
  ghost predicate Exclusion(s: State) {
    && (s.readers == multiset{} || s.writers == multiset{})
    && (forall t, u :: t in s.writers && u in s.writers ==> t == u)
  }

  /** A free lock with exclusive waiters has one that was notified; shared waiters only wait for a writer. */
  ghost predicate NoLostWakeup(s: State) {
    && (s.readers == multiset{} && s.writers == multiset{} && s.exclusiveWait != {} ==> s.exclusiveReady != {})
    && (s.writers == multiset{} ==> s.sharedWait == {})
  }

  ghost predicate OnePlaceEach(s: State) {
    && s.sharedWait !! s.sharedReady !! s.exclusiveWait !! s.exclusiveReady
  }

  ghost predicate Inv(s: State) {
    CountersExact(s) && Exclusion(s) && NoLostWakeup(s) && OnePlaceEach(s)
  }

  lemma EnterSharedKeeps(s: State, t: Tid)
    requires CountersExact(s) && Exclusion(s) && NoLostWakeup(s) && OnePlaceEach(s) && s.Idle(t)
    ensures Inv(EnterShared(s, t))
  {
    if s.lock.exclusive > 0 {
      assert s.writers != multiset{};
    }
  }

  lemma EnterExclusiveKeeps(s: State, t: Tid)
    requires CountersExact(s) && Exclusion(s) && OnePlaceEach(s) && s.Idle(t)
    requires s.writers == multiset{} ==> s.sharedWait == {}
    ensures Inv(EnterExclusive(s, t))
  {
    var s' := EnterExclusive(s, t);
    if TryExclusive(s.lock, t).1 == Acquired {
      assert s'.writers[t] > 0;
    } else {
      assert s.readers != multiset{} || s.writers != multiset{} by {
        if s.lock.exclusive == 1 {
          assert s.writers[s.lock.owner.value] >= 1;
        }
      }
    }
  }

  lemma UnlockSharedKeeps(s: State, t: Tid, woken: Option<Tid>)
    requires Inv(s) && Enabled(s, UnlockShared(t, woken))
    ensures Inv(Next(s, UnlockShared(t, woken)))
  {
    var left := s.readers - multiset{t};
    assert |left| == |s.readers| - 1;
    assert left == multiset{} <==> |left| == 0;
  }

  lemma UnlockExclusiveKeeps(s: State, t: Tid, woken: Option<Tid>)
    requires Inv(s) && Enabled(s, UnlockExclusive(t, woken))
    ensures Inv(Next(s, UnlockExclusive(t, woken)))
  {
    assert s.lock.exclusive == 1 && s.lock.owner == Some(t);
    var left := s.writers - multiset{t};
    assert left[t] == s.writers[t] - 1;
    assert forall u :: u in left ==> u in s.writers;
    assert forall u :: u in left ==> u == t;
    if left[t] == 0 {
      assert forall u :: left[u] == 0;
      assert left == multiset{};
    }
  }

  /** Every step of every thread keeps the invariant. */
  lemma StepKeeps(s: State, a: Action)
    requires Inv(s) && Enabled(s, a)
    ensures Inv(Next(s, a))
  {
    hide CountersExact, Exclusion;
    match a
    case LockShared(t) => EnterSharedKeeps(s, t);
    case ResumeShared(t) =>
      var taken := s.(sharedReady := s.sharedReady - {t});
      SameHolders(s, taken);
      EnterSharedKeeps(taken, t);
    case TryLockShared(t) => EnterSharedKeeps(s, t);
    case UnlockShared(t, woken) => UnlockSharedKeeps(s, t, woken);
    case LockExclusive(t) => EnterExclusiveKeeps(s, t);
    case ResumeExclusive(t) =>
      var taken := s.(exclusiveReady := s.exclusiveReady - {t});
      SameHolders(s, taken);
      EnterExclusiveKeeps(taken, t);
    case UnlockExclusive(t, woken) => UnlockExclusiveKeeps(s, t, woken);
    case SpuriousWake(t) => SameHolders(s, Next(s, a));
  }

  lemma SameHolders(s: State, s': State)
    requires s'.lock == s.lock && s'.readers == s.readers && s'.writers == s.writers
    ensures CountersExact(s) ==> CountersExact(s')
    ensures Exclusion(s) ==> Exclusion(s')
  {
  }

  // ----- runs -----

  /** `states` is a run of the machine under `actions`. */
  ghost predicate Run(states: seq<State>, actions: seq<Action>) {
    && |states| == |actions| + 1
    && states[0] == INITIAL
    && forall i :: 0 <= i < |actions| ==> Enabled(states[i], actions[i]) && states[i + 1] == Next(states[i], actions[i])
  }

  /** In every run: exclusion, exact counters, and no lost wake-up, at every moment. */
  lemma {:induction false} RunIsSafe(states: seq<State>, actions: seq<Action>, i: nat)
    requires Run(states, actions) && i < |states|
    ensures Inv(states[i])
    decreases i
  {
    if i > 0 {
      RunIsSafe(states, actions, i - 1);
      StepKeeps(states[i - 1], actions[i - 1]);
    }
  }

  lemma SomeReady(ready: set<Tid>) returns (t: Tid)
    requires ready != {}
    ensures t in ready
  {
    assert (forall u: Tid :: u !in ready) ==> ready == {};
    t :| t in ready;
  }

  /** In every run, whenever the lock is free and someone waits, a woken thread's next step takes the lock. */
  lemma FreeLockIsTaken(states: seq<State>, actions: seq<Action>, i: nat) returns (t: Tid)
    requires Run(states, actions) && i < |states|
    requires states[i].readers == multiset{} && states[i].writers == multiset{}
    requires states[i].sharedWait + states[i].exclusiveWait != {}
    ensures Enabled(states[i], ResumeExclusive(t))
    ensures Next(states[i], ResumeExclusive(t)).writers == multiset{t}
  {
    RunIsSafe(states, actions, i);
    assert states[i].sharedWait == {};
    assert states[i].exclusiveWait != {};
    t := SomeReady(states[i].exclusiveReady);
  }

  /** A thread that already holds the write lock gets it again at once and must release it as often. */
  lemma RecursiveEntry(states: seq<State>, actions: seq<Action>, i: nat, t: Tid)
    requires Run(states, actions) && i < |states| && t in states[i].writers && states[i].Idle(t)
    ensures Next(states[i], LockExclusive(t)).writers == states[i].writers + multiset{t}
    ensures Next(states[i], LockExclusive(t)).lock.recursion == states[i].writers[t] + 1
  {
    RunIsSafe(states, actions, i);
  }

  // ----- what the lock does not do: change from one mode to the other -----

  /** `t` holds the lock in one mode and waits for it in the other. */
  ghost predicate WaitsToUpgrade(s: State, t: Tid) {
    t in s.readers && (t in s.exclusiveWait || t in s.exclusiveReady)
  }

  ghost predicate WaitsToDowngrade(s: State, t: Tid) {
    t in s.writers && (t in s.sharedWait || t in s.sharedReady)
  }

  /** A holder that asks for the other mode waits. */
  lemma OtherModeWaits(states: seq<State>, actions: seq<Action>, i: nat, t: Tid)
    requires Run(states, actions) && i < |states| && states[i].Idle(t)
    ensures t in states[i].readers ==> WaitsToUpgrade(Next(states[i], LockExclusive(t)), t)
    ensures t in states[i].writers ==> WaitsToDowngrade(Next(states[i], LockShared(t)), t)
  {
    RunIsSafe(states, actions, i);
  }

  lemma UpgradeStays(s: State, a: Action, t: Tid)
    requires Inv(s) && Enabled(s, a) && WaitsToUpgrade(s, t)
    ensures WaitsToUpgrade(Next(s, a), t)
  {
    assert s.lock.shared > 0 && s.writers == multiset{} && s.lock.owner == None;
  }

  lemma DowngradeStays(s: State, a: Action, t: Tid)
    requires Inv(s) && Enabled(s, a) && WaitsToDowngrade(s, t)
    ensures WaitsToDowngrade(Next(s, a), t)
  {
    assert s.lock.exclusive == 1 && s.readers == multiset{} && s.lock.owner == Some(t);
  }

  /** Once a reader waits for the write lock it waits at every later moment, and nobody ever writes again. */
  lemma {:induction false} UpgradeNeverEnds(states: seq<State>, actions: seq<Action>, i: nat, j: nat, t: Tid)
    requires Run(states, actions) && i <= j < |states| && WaitsToUpgrade(states[i], t)
    ensures WaitsToUpgrade(states[j], t) && states[j].writers == multiset{}
    decreases j
  {
    hide WaitsToUpgrade, Enabled, Next;
    RunIsSafe(states, actions, j);
    if i < j {
      UpgradeNeverEnds(states, actions, i, j - 1, t);
      RunIsSafe(states, actions, j - 1);
      UpgradeStays(states[j - 1], actions[j - 1], t);
    }
    assert t in states[j].readers by { UpgraderReads(states[j], t); }
  }

  lemma UpgraderReads(s: State, t: Tid)
    requires WaitsToUpgrade(s, t)
    ensures t in s.readers
  {
  }

  /** Once the writer waits for the read lock it waits at every later moment, and nobody ever reads again. */
  lemma {:induction false} DowngradeNeverEnds(states: seq<State>, actions: seq<Action>, i: nat, j: nat, t: Tid)
    requires Run(states, actions) && i <= j < |states| && WaitsToDowngrade(states[i], t)
    ensures WaitsToDowngrade(states[j], t) && states[j].readers == multiset{}
    decreases j
  {
    hide WaitsToDowngrade, Enabled, Next;
    RunIsSafe(states, actions, j);
    if i < j {
      DowngradeNeverEnds(states, actions, i, j - 1, t);
      RunIsSafe(states, actions, j - 1);
      DowngradeStays(states[j - 1], actions[j - 1], t);
    }
    assert t in states[j].writers by { DowngraderWrites(states[j], t); }
  }

  lemma DowngraderWrites(s: State, t: Tid)
    requires WaitsToDowngrade(s, t)
    ensures t in s.writers
  {
  }
}
