/** The deadlock check of `LockTrace`: a bounded walk of the recorded wait-for graph. */
module LockTrace {
  import opened Common

  type Tid = int
  type Mutex = int

  /** What is recorded: who holds a mutex, and which mutex a thread waits for. */
  datatype Graph = Graph(locks: map<Mutex, Tid>, waits: map<Tid, Mutex>)

  /** The recursive overload of `deadlockCheck`. */
  function Walk(g: Graph, own: set<Mutex>, other: Tid, n: nat, limit: nat): (found: bool)
    decreases limit - n
  {
    if n >= limit then false
    else if other !in g.waits then false
    else if g.waits[other] in own then true
    else if g.waits[other] !in g.locks then false
    else Walk(g, own, g.locks[g.waits[other]], n + 1, limit)
  }

  // ----- chains of waiting threads, stated on their own -----

  /** Thread `t` waits for a mutex that thread `u` holds. */
  ghost predicate WaitsFor(g: Graph, t: Tid, u: Tid) {
    t in g.waits && g.waits[t] in g.locks && g.locks[g.waits[t]] == u
  }

  /** Each thread of `chain` waits for the next. */
  ghost predicate Chain(g: Graph, chain: seq<Tid>) {
    forall i :: 0 <= i < |chain| - 1 ==> WaitsFor(g, chain[i], chain[i + 1])
  }

  /** A chain that starts at `from` and ends in a thread waiting for one of `own`. */
  ghost predicate ChainInto(g: Graph, own: set<Mutex>, from: Tid, chain: seq<Tid>) {
    && chain != [] && chain[0] == from && Chain(g, chain)
    && var last := chain[|chain| - 1];
       last in g.waits && g.waits[last] in own
  }

  /** The threads of `cycle` wait for each other in a ring. */
  ghost predicate Cycle(g: Graph, cycle: seq<Tid>) {
    cycle != [] && Chain(g, cycle) && WaitsFor(g, cycle[|cycle| - 1], cycle[0])
  }

  lemma {:induction false} WalkFindsChain(g: Graph, own: set<Mutex>, other: Tid, n: nat, limit: nat) returns (chain: seq<Tid>)
    requires Walk(g, own, other, n, limit)
    ensures ChainInto(g, own, other, chain) && |chain| <= limit - n
    decreases limit - n
  {
    if g.waits[other] in own {
      chain := [other];
    } else {
      var rest := WalkFindsChain(g, own, g.locks[g.waits[other]], n + 1, limit);
      chain := [other] + rest;
    }
  }

  lemma {:induction false} ChainIsFound(g: Graph, own: set<Mutex>, other: Tid, n: nat, limit: nat, chain: seq<Tid>)
    requires ChainInto(g, own, other, chain) && |chain| <= limit - n
    ensures Walk(g, own, other, n, limit)
    decreases |chain|
  {
    assert |chain| > 1 ==> WaitsFor(g, chain[0], chain[1]);
    if |chain| > 1 && g.waits[other] !in own {
      var rest := chain[1..];
      assert Chain(g, rest) by {
        forall i | 0 <= i < |rest| - 1 ensures WaitsFor(g, rest[i], rest[i + 1]) {
          assert WaitsFor(g, chain[i + 1], chain[i + 2]);
        }
      }
      ChainIsFound(g, own, chain[1], n + 1, limit, rest);
    }
  }

  /** The walk succeeds exactly when some chain of at most `limit - n` threads leads into `own`. */
  lemma WalkExact(g: Graph, own: set<Mutex>, other: Tid, n: nat, limit: nat)
    ensures Walk(g, own, other, n, limit) <==> exists chain :: ChainInto(g, own, other, chain) && |chain| <= limit - n
  {
    if Walk(g, own, other, n, limit) {
      var chain := WalkFindsChain(g, own, other, n, limit);
    }
    forall chain | ChainInto(g, own, other, chain) && |chain| <= limit - n ensures Walk(g, own, other, n, limit) {
      ChainIsFound(g, own, other, n, limit, chain);
    }
  }

  /** When the requester is recorded as the holder of its own mutexes, a chain into them closes a ring. */
  lemma ChainClosesCycle(g: Graph, own: set<Mutex>, me: Tid, mutex: Mutex, other: Tid, chain: seq<Tid>)
    requires me in g.waits && g.waits[me] == mutex && mutex in g.locks && g.locks[mutex] == other
    requires ChainInto(g, own, other, chain)
    requires forall m :: m in own ==> m in g.locks && g.locks[m] == me
    ensures Cycle(g, [me] + chain)
  {
    var cycle := [me] + chain;
    var last := chain[|chain| - 1];
    var m: Mutex := g.waits[last];
    assert m in own && m in g.locks;
    assert cycle[|cycle| - 1] == last && WaitsFor(g, last, me);
    forall i | 0 <= i < |cycle| - 1 ensures WaitsFor(g, cycle[i], cycle[i + 1]) {
      if i > 0 {
        assert WaitsFor(g, chain[i - 1], chain[i]);
      }
    }
  }

  /** Conversely, every ring through the requester of at most `limit` threads is a chain the walk finds. */
  lemma CycleIsFound(g: Graph, own: set<Mutex>, me: Tid, other: Tid, cycle: seq<Tid>, limit: nat)
    requires Cycle(g, cycle) && 2 <= |cycle| <= limit && cycle[0] == me && cycle[1] == other
    requires forall m :: m in g.locks && g.locks[m] == me ==> m in own
    ensures Walk(g, own, other, 1, limit)
  {
    var chain := cycle[1..];
    assert chain[|chain| - 1] == cycle[|cycle| - 1];
    assert WaitsFor(g, cycle[|cycle| - 1], me);
    var m: Mutex := g.waits[cycle[|cycle| - 1]];
    assert m in g.locks && m in own;
    forall i | 0 <= i < |chain| - 1 ensures WaitsFor(g, chain[i], chain[i + 1]) {
      assert WaitsFor(g, cycle[i + 1], cycle[i + 2]);
    }
    ChainIsFound(g, own, other, 1, limit, chain);
  }

  class Trace {
    var locks: map<Mutex, Tid>
    var waits: map<Tid, Mutex>
    var ownLocks: map<Tid, set<Mutex>>
    var recursives: set<Mutex>
    var maxBlockTids: nat

    /** Owner sets and recorded holders agree. */
    ghost predicate Consistent()
      reads this
    {
      && (forall m :: m in locks ==> locks[m] in ownLocks && m in ownLocks[locks[m]])
      && (forall t, m :: t in ownLocks && m in ownLocks[t] ==> m in locks && locks[m] == t)
    }

    constructor ()
      ensures locks == map[] && waits == map[] && ownLocks == map[] && recursives == {} && Consistent()
      ensures maxBlockTids == 8
    {
      maxBlockTids := 8;
      locks, waits, ownLocks, recursives := map[], map[], map[], {};
    }

    /** The first overload of `deadlockCheck`. It records the wait before it looks. */
    method DeadlockCheck(mutex: Mutex, me: Tid) returns (found: bool)
      modifies this`waits
      ensures waits == old(waits)[me := mutex]
      ensures mutex !in locks ==> !found
      ensures mutex in locks && locks[mutex] == me ==> (found <==> mutex !in recursives)
      ensures mutex in locks && locks[mutex] != me ==>
        (found <==> me in ownLocks && exists chain ::
           ChainInto(Graph(locks, waits), ownLocks[me], locks[mutex], chain) && |chain| <= maxBlockTids - 1)
    {
      waits := waits[me := mutex];
      if mutex !in locks {
        return false;
      }
      var other := locks[mutex];
      if me == other {
        return mutex !in recursives;
      }
      if me !in ownLocks {
        return false;
      }
      var own := ownLocks[me];
      WalkExact(Graph(locks, waits), own, other, 1, maxBlockTids);
      if own == {} {
        return false;
      }
      found := Walk(Graph(locks, waits), own, other, 1, maxBlockTids);
    }

    /** `insertLock`: the first recorded holder of a mutex is kept. */
    method InsertLock(mutex: Mutex, me: Tid)
      modifies this
      ensures locks == if mutex in old(locks) then old(locks) else old(locks)[mutex := me]
      ensures waits == old(waits) - {me} && recursives == old(recursives) && maxBlockTids == old(maxBlockTids)
      ensures ownLocks == old(ownLocks)[me := old(if me in ownLocks then ownLocks[me] else {}) + {mutex}]
      ensures old(Consistent()) ==> (Consistent() <==> mutex !in old(locks) || old(locks)[mutex] == me)
    {
      if mutex !in locks {
        locks := locks[mutex := me];
      }
      waits := waits - {me};
      ownLocks := ownLocks[me := (if me in ownLocks then ownLocks[me] else {}) + {mutex}];
      assert me in ownLocks && mutex in ownLocks[me];
    }

    method Unlock(mutex: Mutex, me: Tid)
      modifies this
      ensures locks == old(locks) - {mutex} && waits == old(waits) && recursives == old(recursives) && maxBlockTids == old(maxBlockTids)
      ensures ownLocks == old(ownLocks)[me := old(if me in ownLocks then ownLocks[me] else {}) - {mutex}]
      ensures old(Consistent()) ==> (Consistent() <==> mutex !in old(locks) || old(locks)[mutex] == me)
    {
      ghost var holder := if mutex in locks then locks[mutex] else me;
      assert Consistent() && mutex in locks ==> holder in ownLocks && mutex in ownLocks[holder];
      locks := locks - {mutex};
      ownLocks := ownLocks[me := (if me in ownLocks then ownLocks[me] else {}) - {mutex}];
      assert old(Consistent()) && holder != me ==> mutex in ownLocks[holder];
    }

    /** With consistent records a report is a real ring, and every ring of up to `maxBlockTids` threads is reported. */
    method CheckAndExplain(mutex: Mutex, me: Tid) returns (found: bool)
      requires Consistent() && mutex in locks && locks[mutex] != me
      modifies this`waits
      ensures waits == old(waits)[me := mutex]
      ensures found <==> exists cycle ::
        Cycle(Graph(locks, waits), cycle) && cycle[0] == me && 2 <= |cycle| <= maxBlockTids
    {
      found := DeadlockCheck(mutex, me);
      ghost var g, other := Graph(locks, waits), locks[mutex];
      if found {
        ghost var chain :| ChainInto(g, ownLocks[me], other, chain) && |chain| <= maxBlockTids - 1;
        ChainClosesCycle(g, ownLocks[me], me, mutex, other, chain);
        assert ([me] + chain)[0] == me;
      }
      forall cycle | Cycle(g, cycle) && cycle[0] == me && 2 <= |cycle| <= maxBlockTids ensures found {
        assert WaitsFor(g, cycle[0], cycle[1]);
        var last := cycle[|cycle| - 1];
        assert WaitsFor(g, last, me);
        var m: Mutex := g.waits[last];
        assert m in locks && locks[m] == me && me in ownLocks && m in ownLocks[me];
        CycleIsFound(g, ownLocks[me], me, other, cycle, maxBlockTids);
        WalkExact(g, ownLocks[me], other, 1, maxBlockTids);
      }
    }
  }

  // ----- records against the locks really held -----

  /** A lock taken, or one release of it; a recursive mutex is held until it is released as often as it was taken. */
  datatype Event = Took(mutex: Mutex, thread: Tid) | Released(mutex: Mutex, thread: Tid)

  ghost function Depth(events: seq<Event>, m: Mutex): int {
    if events == [] then 0
    else
      var last := events[|events| - 1];
      Depth(events[..|events| - 1], m) + if last.mutex != m then 0 else if last.Took? then 1 else -1
  }

  /** The last event on a mutex; its thread is the holder while the mutex is held. */
  ghost function LastOn(events: seq<Event>, m: Mutex): Option<Event> {
    if events == [] then None
    else if events[|events| - 1].mutex == m then Some(events[|events| - 1])
    else LastOn(events[..|events| - 1], m)
  }

  ghost predicate LastTook(events: seq<Event>, m: Mutex) {
    LastOn(events, m).Some? && LastOn(events, m).value.Took?
  }

  ghost predicate HeldBy(events: seq<Event>, m: Mutex, t: Tid) {
    Depth(events, m) > 0 && LastOn(events, m).Some? && LastOn(events, m).value.thread == t
  }

  /** Threads take free mutexes or ones they hold, and release only what they hold. */
  ghost predicate Legal(events: seq<Event>) {
    events == [] ||
    (var init, last := events[..|events| - 1], events[|events| - 1];
     && Legal(init)
     && (HeldBy(init, last.mutex, last.thread) || (last.Took? && Depth(init, last.mutex) == 0)))
  }

  lemma {:induction false} TookMeansHeld(events: seq<Event>, m: Mutex)
    requires Legal(events)
    ensures Depth(events, m) >= 0
    ensures LastTook(events, m) ==> Depth(events, m) > 0
    ensures Depth(events, m) > 0 ==> LastOn(events, m).Some?
  {
    if events != [] {
      TookMeansHeld(events[..|events| - 1], m);
    }
  }

  /** The records hold a mutex whose last event took it, under the thread that did. */
  ghost predicate Recorded(locks: map<Mutex, Tid>, events: seq<Event>, m: Mutex) {
    if LastTook(events, m) then m in locks && locks[m] == LastOn(events, m).value.thread else m !in locks
  }

  /** The records say of the mutex what is the case: who holds it, or that nobody does. */
  ghost predicate NamesHolder(locks: map<Mutex, Tid>, events: seq<Event>, m: Mutex) {
    if Depth(events, m) > 0 then m in locks && HeldBy(events, m, locks[m]) else m !in locks
  }

  /** The records name the real holder exactly when the mutex is free or was last taken, not released. */
  lemma NamesHolderIff(locks: map<Mutex, Tid>, events: seq<Event>, m: Mutex)
    requires Legal(events) && Recorded(locks, events, m)
    ensures NamesHolder(locks, events, m) <==> Depth(events, m) == 0 || LastTook(events, m)
  {
    TookMeansHeld(events, m);
  }

  lemma EventSnoc(events: seq<Event>, e: Event, m: Mutex)
    ensures LastOn(events + [e], m) == if e.mutex == m then Some(e) else LastOn(events, m)
    ensures Depth(events + [e], m) == Depth(events, m) + if e.mutex != m then 0 else if e.Took? then 1 else -1
  {
    assert (events + [e])[..|events|] == events;
  }

  /** One event keeps the records as described. */
  lemma RecordedStep(before: map<Mutex, Tid>, after: map<Mutex, Tid>, events: seq<Event>, e: Event, m: Mutex)
    requires Legal(events) && Legal(events + [e]) && Recorded(before, events, m) && Recorded(before, events, e.mutex)
    requires after == if e.Released? then before - {e.mutex} else if e.mutex in before then before else before[e.mutex := e.thread]
    ensures Recorded(after, events + [e], m)
  {
    assert (events + [e])[..|events|] == events;
    EventSnoc(events, e, m);
    TookMeansHeld(events, e.mutex);
  }

  /** The records after any legal run: every mutex is recorded by its last event, and the records name its real holder
      exactly when it is free or was last taken. */
  method RunTrace(events: seq<Event>) returns (trace: Trace)
    requires Legal(events)
    ensures fresh(trace) && trace.maxBlockTids == 8 && trace.waits == map[]
    ensures forall m :: Recorded(trace.locks, events, m)
    ensures forall m :: NamesHolder(trace.locks, events, m) <==> Depth(events, m) == 0 || LastTook(events, m)
  {
    hide Recorded, NamesHolder;
    trace := new Trace();
    assert forall m :: Recorded(trace.locks, [], m) by { NothingRecorded(); }
    for i := 0 to |events|
      invariant fresh(trace) && trace.maxBlockTids == 8 && trace.waits == map[]
      invariant forall m :: Recorded(trace.locks, events[..i], m)
    {
      ghost var now := events[..i + 1];
      assert now == events[..i] + [events[i]];
      LegalPrefix(events, i);
      LegalPrefix(events, i + 1);
      ghost var before := trace.locks;
      if events[i].Took? {
        trace.InsertLock(events[i].mutex, events[i].thread);
      } else {
        trace.Unlock(events[i].mutex, events[i].thread);
      }
      forall m ensures Recorded(trace.locks, now, m) {
        RecordedStep(before, trace.locks, events[..i], events[i], m);
      }
    }
    assert events[..|events|] == events;
    forall m ensures NamesHolder(trace.locks, events, m) <==> Depth(events, m) == 0 || LastTook(events, m) {
      TookMeansHeld(events, m);
      NamesHolderIff(trace.locks, events, m);
    }
  }

  lemma NothingRecorded()
    ensures forall m :: Recorded(map[], [], m)
  {
  }

  lemma {:induction false} LegalPrefix(events: seq<Event>, n: nat)
    requires Legal(events) && n <= |events|
    ensures Legal(events[..n])
    decreases |events|
  {
    if n < |events| {
      var init := events[..|events| - 1];
      LegalPrefix(init, n);
      assert init[..n] == events[..n];
    } else {
      assert events[..n] == events;
    }
  }

  /** `a` holds the recursive mutex `m`, taken twice and released once, and `b` holds `n`. Then `a` waits for `n` and `b`
      for `m`: a deadlock that neither check reports. */
  method InnerReleaseHidesDeadlock(m: Mutex, n: Mutex, a: Tid, b: Tid) returns (first: bool, second: bool)
    requires m != n && a != b
    ensures !first && !second
    ensures var events := [Took(m, a), Took(m, a), Released(m, a), Took(n, b)];
      Legal(events) && HeldBy(events, m, a) && HeldBy(events, n, b)
  {
    ghost var events := [Took(m, a), Took(m, a), Released(m, a), Took(n, b)];
    assert Legal(events) && HeldBy(events, m, a) && HeldBy(events, n, b) by { HeldOnce(m, n, a, b); }
    var trace := new Trace();
    trace.InsertLock(m, a);
    trace.InsertLock(m, a);
    trace.Unlock(m, a);
    trace.InsertLock(n, b);
    first := trace.DeadlockCheck(n, a);
    assert trace.ownLocks[a] == {};
    second := trace.DeadlockCheck(m, b);
  }

  lemma HeldOnce(m: Mutex, n: Mutex, a: Tid, b: Tid)
    requires m != n && a != b
    ensures var events := [Took(m, a), Took(m, a), Released(m, a), Took(n, b)];
      Legal(events) && HeldBy(events, m, a) && HeldBy(events, n, b)
  {
    var e1, e2, e3 := [Took(m, a)], [Took(m, a), Took(m, a)], [Took(m, a), Took(m, a), Released(m, a)];
    var e4 := [Took(m, a), Took(m, a), Released(m, a), Took(n, b)];
    assert e1[..0] == [] && e2[..1] == e1 && e3[..2] == e2 && e4[..3] == e3;
    assert Legal(e1) && Depth(e1, m) == 1 && Depth(e1, n) == 0 && HeldBy(e1, m, a);
    assert Legal(e2) && Depth(e2, m) == 2 && Depth(e2, n) == 0 && HeldBy(e2, m, a);
    assert Legal(e3) && Depth(e3, m) == 1 && Depth(e3, n) == 0 && HeldBy(e3, m, a);
  }
}
