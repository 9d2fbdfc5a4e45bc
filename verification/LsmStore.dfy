/** The store above the iterators: writes, freezing and flushing memtables, and reads through `new_iterator`. */
module LsmStore {
  import opened Common
  import opened Bytes
  import opened LsmKeys
  import opened LsmBlock
  import opened LsmTable
  import opened LsmView
  import opened LsmMerge
  import opened LsmUser
  import opened LsmRead

  // ----- the contents of a table -----

  ghost predicate WellFormed(t: Table) {
    exists parts :: TableHolds(t, parts)
  }

  ghost function Parts(t: Table): (parts: seq<seq<Entry>>)
    requires WellFormed(t)
    ensures TableHolds(t, parts)
  {
    var parts :| TableHolds(t, parts);
    parts
  }

  ghost predicate AllWellFormed(tables: seq<Table>) {
    forall i :: 0 <= i < |tables| ==> WellFormed(tables[i])
  }

  ghost function TableLists(tables: seq<Table>): seq<seq<Entry>>
    requires AllWellFormed(tables)
  {
    seq(|tables|, i requires 0 <= i < |tables| => Flatten(Parts(tables[i])))
  }

  // ----- the store -----

  /** The memtable, the frozen memtables, the tables of all levels in order, and the next sequence number. */
  datatype Store = Store(mem: seq<Entry>, imems: seq<seq<Entry>>, tables: seq<Table>, nextSeq: nat)

  /** All lists of versions in the store. */
  ghost function AllLists(s: Store): seq<seq<Entry>>
    requires AllWellFormed(s.tables)
  {
    [s.mem] + s.imems + TableLists(s.tables)
  }

  /** The lists `new_iterator` reads: of the frozen memtables only the last. */
  ghost function ReadLists(s: Store): seq<seq<Entry>>
    requires AllWellFormed(s.tables)
  {
    [s.mem] + (if s.imems == [] then [] else [s.imems[|s.imems| - 1]]) + TableLists(s.tables)
  }

  // ----- rearranging lists -----

  /** `b` has the lists of `a` in other places, except for empty ones; `from` says where each came from. */
  ghost predicate Rearranged(a: seq<seq<Entry>>, b: seq<seq<Entry>>, from: seq<int>) {
    && |from| == |b|
    && (forall j :: 0 <= j < |b| ==> b[j] == [] || (0 <= from[j] < |a| && b[j] == a[from[j]]))
    && (forall j, k :: 0 <= j < k < |b| && b[j] != [] && b[k] != [] ==> from[j] != from[k])
  }

  lemma RearrangedMergeable(a: seq<seq<Entry>>, b: seq<seq<Entry>>, from: seq<int>)
    requires Mergeable(a) && Rearranged(a, b, from)
    ensures Mergeable(b) && Union(b) <= Union(a)
  {
    hide Sorted, NoSharedKey;
    assert forall j :: 0 <= j < |b| ==> Sorted(b[j]) by { assert Sorted([]) by { EmptyList(); } }
    forall j, k | 0 <= j < |b| && 0 <= k < |b| && j != k ensures NoSharedKey(b[j], b[k]) {
      if b[j] == [] {
        EmptyShares(b[k]);
      } else if b[k] == [] {
        EmptyShares(b[j]);
      } else {
        assert from[j] != from[k];
      }
    }
  }

  lemma EmptyList()
    ensures Sorted([])
  {
  }

  lemma EmptyShares(a: seq<Entry>)
    ensures NoSharedKey([], a) && NoSharedKey(a, [])
  {
  }

  // ----- what was written -----

  /** The writes by sequence number; an empty value deletes, and a write that failed used up its number. */
  type Log = seq<Option<Pair>>

  predicate Wrote(log: Log, i: nat) {
    i < |log| && log[i].Some?
  }

  function VersionAt(log: Log, i: nat): Entry
    requires Wrote(log, i)
  {
    Entry(MakeInternalKey(log[i].value.key, i), log[i].value.value)
  }

  ghost function Versions(log: Log): set<Entry> {
    set i | 0 <= i < |log| && Wrote(log, i) :: VersionAt(log, i)
  }

  /** The last write of `k` among those numbered at most `snap`. */
  ghost predicate LastWrite(log: Log, snap: nat, k: Bytes, i: nat) {
    && Wrote(log, i) && i <= snap && log[i].value.key == k
    && forall j :: i < j <= snap && Wrote(log, j) ==> log[j].value.key != k
  }

  /** Reading the history: the last write of `k` up to `snap` put `v`. */
  ghost predicate LogReads(log: Log, snap: nat, k: Bytes, v: Bytes) {
    v != [] && exists i: nat :: LastWrite(log, snap, k, i) && log[i].value.value == v
  }

  lemma VersionParts(log: Log, i: nat)
    requires Wrote(log, i) && |log| <= Radix(8)
    ensures UserKey(VersionAt(log, i).key) == log[i].value.key && Sequence(VersionAt(log, i).key) == i
    ensures VersionAt(log, i) in Versions(log)
  {
    hide Radix, MakeInternalKey, UserKey, Sequence;
    InternalKeyParts(log[i].value.key, i);
  }

  lemma NewestIsLastWrite(log: Log, snap: nat, i: nat)
    requires Wrote(log, i) && |log| <= Radix(8)
    ensures NewestVisible(Versions(log), snap, VersionAt(log, i)) <==> LastWrite(log, snap, log[i].value.key, i)
  {
    hide Radix, MakeInternalKey, UserKey, Sequence, VersionAt;
    forall j: nat | Wrote(log, j)
      ensures UserKey(VersionAt(log, j).key) == log[j].value.key && Sequence(VersionAt(log, j).key) == j
      ensures VersionAt(log, j) in Versions(log)
    {
      VersionParts(log, j);
    }
    if NewestVisible(Versions(log), snap, VersionAt(log, i)) {
      forall j | i < j <= snap && Wrote(log, j) ensures log[j].value.key != log[i].value.key {
        assert VersionAt(log, j) in Versions(log);
      }
    }
  }

  /** Reading the versions of a history is reading the history. */
  lemma VersionsRead(log: Log, lists: seq<seq<Entry>>, snap: nat, k: Bytes, v: Bytes)
    requires |log| <= Radix(8) && Union(lists) == Versions(log)
    ensures Reads(lists, snap, k, v) <==> LogReads(log, snap, k, v)
  {
    hide Radix, MakeInternalKey, UserKey, Sequence, NewestVisible, Union;
    if Reads(lists, snap, k, v) {
      var e :| Shown(Union(lists), snap, e) && UserKey(e.key) == k && e.value == v;
      assert e in Versions(log) by { NewestIsThere(Versions(log), snap, e); }
      var i :| 0 <= i < |log| && Wrote(log, i) && e == VersionAt(log, i);
      VersionParts(log, i);
      NewestIsLastWrite(log, snap, i);
    }
    if LogReads(log, snap, k, v) {
      var i: nat :| LastWrite(log, snap, k, i) && log[i].value.value == v;
      VersionParts(log, i);
      NewestIsLastWrite(log, snap, i);
      assert Shown(Union(lists), snap, VersionAt(log, i));
    }
  }

  lemma NewestIsThere(s: set<Entry>, snap: nat, e: Entry)
    requires NewestVisible(s, snap, e)
    ensures e in s
  {
  }

  // ----- steps -----

  /** Writes, writes that the write-ahead log refuses, freezing the memtable, and building the last frozen memtable
      into a table put at some place of the levels. */
  datatype Step = Put(pair: Pair) | FailedPut | Freeze | Flush(table: Table, at: nat)

  ghost predicate Enabled(s: Store, a: Step) {
    match a
    case Put(_) => s.nextSeq < Radix(8)
    case FailedPut => s.nextSeq < Radix(8)
    case Freeze => s.mem != []
    case Flush(t, at) => s.imems != [] && at <= |s.tables| && WellFormed(t) && Flatten(Parts(t)) == s.imems[|s.imems| - 1]
  }

  /** The documented effect of inserting into the skip list: sorted as before, with the new version in it. */
  ghost predicate Inserted(mem: seq<Entry>, e: Entry, grown: seq<Entry>) {
    Sorted(grown) && forall x :: x in grown <==> x in mem || x == e
  }

  function NewVersion(s: Store, p: Pair): Entry {
    Entry(MakeInternalKey(p.key, s.nextSeq), p.value)
  }

  ghost predicate Next(s: Store, a: Step, s': Store) {
    && Enabled(s, a)
    && match a
       case Put(p) => Inserted(s.mem, NewVersion(s, p), s'.mem) && s' == s.(mem := s'.mem, nextSeq := s.nextSeq + 1)
       case FailedPut => s' == s.(nextSeq := s.nextSeq + 1)
       case Freeze => s' == s.(mem := [], imems := s.imems + [s.mem])
       case Flush(t, at) => s' == s.(imems := s.imems[..|s.imems| - 1], tables := s.tables[..at] + [t] + s.tables[at..])
  }

  /** The lists of the store hold the versions written, each once. */
  ghost predicate Inv(s: Store, log: Log) {
    && AllWellFormed(s.tables)
    && Mergeable(AllLists(s))
    && Union(AllLists(s)) == Versions(log)
    && s.nextSeq == |log| <= Radix(8)
    && forall i :: 0 <= i < |s.imems| ==> s.imems[i] != []
  }

  const EMPTY := Store([], [], [], 0)

  lemma EmptyInv()
    ensures Inv(EMPTY, [])
  {
    assert AllLists(EMPTY) == [[]];
  }

  // ----- writing -----

  /** A new version has a key no list has yet. */
  lemma NewKey(s: Store, log: Log, p: Pair, x: Entry)
    requires Inv(s, log) && |log| < Radix(8) && x in Union(AllLists(s))
    ensures x.key != NewVersion(s, p).key
  {
    hide Radix, MakeInternalKey, UserKey, Sequence, Union, Mergeable;
    InternalKeyParts(p.key, s.nextSeq);
    var i :| 0 <= i < |log| && Wrote(log, i) && x == VersionAt(log, i);
    VersionParts(log, i);
  }

  lemma VersionsSnoc(log: Log, w: Option<Pair>)
    ensures Versions(log + [w]) == Versions(log) + if w.Some? then {VersionAt(log + [w], |log|)} else {}
  {
    hide MakeInternalKey;
    var more := log + [w];
    forall e | e in Versions(log) ensures e in Versions(more) {
      var i :| 0 <= i < |log| && Wrote(log, i) && e == VersionAt(log, i);
      assert Wrote(more, i) && e == VersionAt(more, i);
    }
    forall e | e in Versions(more) && (w.Some? ==> e != VersionAt(more, |log|)) ensures e in Versions(log) {
      var i :| 0 <= i < |more| && Wrote(more, i) && e == VersionAt(more, i);
      assert Wrote(log, i) && e == VersionAt(log, i);
    }
  }

  lemma GrownList(lists: seq<seq<Entry>>, grown: seq<Entry>, e: Entry)
    requires lists != [] && Mergeable(lists) && Inserted(lists[0], e, grown)
    requires forall x :: x in Union(lists) ==> x.key != e.key
    ensures Mergeable(lists[0 := grown]) && Union(lists[0 := grown]) == Union(lists) + {e}
  {
    hide Sorted;
    var more := lists[0 := grown];
    forall j | 0 < j < |lists| ensures NoSharedKey(grown, lists[j]) && NoSharedKey(lists[j], grown) {
      assert NoSharedKey(lists[0], lists[j]);
      assert forall y :: y in lists[j] ==> y in Union(lists);
    }
    forall x ensures x in Union(more) <==> x in Union(lists) || x == e {
      if x in Union(more) {
        var i :| 0 <= i < |more| && x in more[i];
        assert i != 0 ==> x in lists[i];
      }
      if x in Union(lists) {
        var i :| 0 <= i < |lists| && x in lists[i];
        assert x in more[i];
      }
      if x == e {
        assert x in more[0];
      }
    }
  }

  lemma PutKeeps(s: Store, log: Log, p: Pair, s': Store)
    requires Inv(s, log) && Next(s, Put(p), s')
    ensures Inv(s', log + [Some(p)])
  {
    hide Radix, MakeInternalKey, UserKey, Sequence, Union, Mergeable, Inserted, Versions, WellFormed, TableLists;
    forall x | x in Union(AllLists(s)) ensures x.key != NewVersion(s, p).key {
      NewKey(s, log, p, x);
    }
    assert AllLists(s)[0] == s.mem;
    GrownList(AllLists(s), s'.mem, NewVersion(s, p));
    assert AllLists(s') == AllLists(s)[0 := s'.mem];
    VersionsSnoc(log, Some(p));
    assert VersionAt(log + [Some(p)], |log|) == NewVersion(s, p);
  }

  lemma FailedPutKeeps(s: Store, log: Log, s': Store)
    requires Inv(s, log) && Next(s, FailedPut, s')
    ensures Inv(s', log + [None])
  {
    hide Radix, Union, Mergeable, Versions, WellFormed, TableLists;
    assert AllLists(s') == AllLists(s);
    VersionsSnoc(log, None);
  }

  /** A write is always possible: its key is new, so the grown memtable exists. */
  lemma PutPossible(s: Store, log: Log, p: Pair) returns (s': Store)
    requires Inv(s, log) && Enabled(s, Put(p))
    ensures Next(s, Put(p), s')
  {
    hide Radix, MakeInternalKey, UserKey, Sequence, Sorted, WellFormed;
    var e := NewVersion(s, p);
    assert AllLists(s)[0] == s.mem;
    forall x | x in s.mem ensures x.key != e.key {
      assert x in Union(AllLists(s));
      NewKey(s, log, p, x);
    }
    forall x, y | x in s.mem && y in s.mem && x.key == y.key ensures x == y {
      SortedDistinct(s.mem, x, y);
    }
    s' := s.(mem := SortedSeq(Elements(s.mem) + {e}), nextSeq := s.nextSeq + 1);
  }

  // ----- freezing and flushing -----

  /** Moving lists about, without losing one, changes neither their union nor that they can be merged. */
  lemma Moved(a: seq<seq<Entry>>, b: seq<seq<Entry>>, from: seq<int>, back: seq<int>)
    requires Mergeable(a) && Rearranged(a, b, from) && Rearranged(b, a, back)
    ensures Mergeable(b) && Union(b) == Union(a)
  {
    hide Mergeable, Union, Rearranged;
    RearrangedMergeable(a, b, from);
    RearrangedMergeable(b, a, back);
  }

  lemma FreezeMoves(mem: seq<Entry>, imems: seq<seq<Entry>>, lists: seq<seq<Entry>>)
    requires Mergeable([mem] + imems + lists)
    ensures Mergeable([[]] + (imems + [mem]) + lists)
    ensures Union([[]] + (imems + [mem]) + lists) == Union([mem] + imems + lists)
  {
    hide Mergeable, Union;
    var a, b, n := [mem] + imems + lists, [[]] + (imems + [mem]) + lists, |imems|;
    var from := seq(|b|, j requires 0 <= j < |b| => if j <= n then j else if j == n + 1 then 0 else j - 1);
    var back := seq(|a|, i requires 0 <= i < |a| => if i == 0 then n + 1 else if i <= n then i else i + 1);
    Moved(a, b, from, back);
  }

  lemma FlushMoves(front: seq<seq<Entry>>, last: seq<Entry>, left: seq<seq<Entry>>, right: seq<seq<Entry>>)
    requires Mergeable(front + [last] + (left + right))
    ensures Mergeable(front + (left + [last] + right))
    ensures Union(front + (left + [last] + right)) == Union(front + [last] + (left + right))
  {
    hide Mergeable, Union;
    var a, b, n := front + [last] + (left + right), front + (left + [last] + right), |front|;
    var p := n + |left|;
    var from := seq(|b|, j requires 0 <= j < |b| => if j < n then j else if j < p then j + 1 else if j == p then n else j);
    var back := seq(|a|, i requires 0 <= i < |a| => if i < n then i else if i == n then p else if i <= p then i - 1 else i);
    Moved(a, b, from, back);
  }

  lemma FreezeKeeps(s: Store, log: Log, s': Store)
    requires Inv(s, log) && Next(s, Freeze, s')
    ensures Inv(s', log)
  {
    hide Radix, Union, Mergeable, Versions, WellFormed, TableLists;
    FreezeMoves(s.mem, s.imems, TableLists(s.tables));
  }

  lemma FlushKeeps(s: Store, log: Log, t: Table, at: nat, s': Store)
    requires Inv(s, log) && Next(s, Flush(t, at), s')
    ensures Inv(s', log)
  {
    hide Radix, Union, Mergeable, Versions, WellFormed, Flatten;
    var left, right := s.tables[..at], s.tables[at..];
    var init, last := s.imems[..|s.imems| - 1], s.imems[|s.imems| - 1];
    assert AllLists(s) == ([s.mem] + init) + [last] + (TableLists(left) + TableLists(right));
    FlushMoves([s.mem] + init, last, TableLists(left), TableLists(right));
    assert AllLists(s') == ([s.mem] + init) + (TableLists(left) + [last] + TableLists(right));
  }

  // ----- runs -----

  ghost predicate Run(states: seq<Store>, steps: seq<Step>) {
    && |states| == |steps| + 1
    && states[0] == EMPTY
    && forall i :: 0 <= i < |steps| ==> Next(states[i], steps[i], states[i + 1])
  }

  /** What a step adds to the history. */
  ghost function Written(a: Step): Log {
    match a
    case Put(p) => [Some(p)]
    case FailedPut => [None]
    case _ => []
  }

  /** The writes of a run, in order. */
  ghost function History(steps: seq<Step>): Log {
    if steps == [] then [] else History(steps[..|steps| - 1]) + Written(steps[|steps| - 1])
  }

  /** Every store of every run holds exactly the versions written so far, each in one place. */
  lemma {:induction false} RunHolds(states: seq<Store>, steps: seq<Step>, i: nat)
    requires Run(states, steps) && i < |states|
    ensures Inv(states[i], History(steps[..i]))
    decreases i
  {
    hide Inv, Next;
    if i == 0 {
      EmptyInv();
    } else {
      RunHolds(states, steps, i - 1);
      assert steps[..i][..i - 1] == steps[..i - 1];
      var s, log, s' := states[i - 1], History(steps[..i - 1]), states[i];
      assert Next(s, steps[i - 1], s');
      match steps[i - 1]
      case Put(p) => PutKeeps(s, log, p, s');
      case FailedPut => FailedPutKeeps(s, log, s');
      case Freeze =>
        FreezeKeeps(s, log, s');
        assert log + [] == log;
      case Flush(t, at) =>
        FlushKeeps(s, log, t, at, s');
        assert log + [] == log;
    }
  }

  // ----- reading -----

  /** `new_iterator` reads every version exactly when at most one memtable is frozen. */
  lemma ReadsAllIff(s: Store, log: Log)
    requires Inv(s, log)
    ensures Mergeable(ReadLists(s))
    ensures Union(ReadLists(s)) == Versions(log) <==> |s.imems| <= 1
  {
    hide Radix, Versions, WellFormed, TableLists, Sorted;
    var a, b, n := AllLists(s), ReadLists(s), |s.imems|;
    if n <= 1 {
      assert b == a;
    } else {
      var from := seq(|b|, j requires 0 <= j < |b| => if j == 0 then 0 else j + n - 1);
      RearrangedMergeable(a, b, from);
      OldestUnread(a, b, from);
    }
  }

  /** A list at place 1 that is not taken over is missing. */
  lemma OldestUnread(a: seq<seq<Entry>>, b: seq<seq<Entry>>, from: seq<int>)
    requires Mergeable(a) && Rearranged(a, b, from) && |a| > 1 && a[1] != []
    requires forall j :: 0 <= j < |b| ==> from[j] != 1
    ensures Union(b) != Union(a)
  {
    hide Sorted;
    var e := a[1][0];
    assert e in a[1] && e in Union(a);
    forall j | 0 <= j < |b| ensures e !in b[j] {
      if b[j] != [] {
        assert NoSharedKey(a[1], a[from[j]]);
      }
    }
  }

  /** What the versions in `read` say at the number of `e` is what `e` says: leaving `e` out changes nothing. */
  ghost predicate Redundant(read: set<Entry>, e: Entry) {
    && (forall r :: NewestVisible(read, Sequence(e.key), r) && UserKey(r.key) == UserKey(e.key) ==> r.value == e.value)
    && (e.value == [] || exists r :: NewestVisible(read, Sequence(e.key), r) && UserKey(r.key) == UserKey(e.key))
  }

  ghost predicate ReadsFrom(s: set<Entry>, snap: nat, k: Bytes, v: Bytes) {
    exists e :: Shown(s, snap, e) && UserKey(e.key) == k && e.value == v
  }

  lemma NewestUnique(s: set<Entry>, snap: nat, a: Entry, b: Entry)
    requires DistinctKeys(s) && NewestVisible(s, snap, a) && NewestVisible(s, snap, b)
    requires UserKey(a.key) == UserKey(b.key)
    ensures a == b
  {
    hide UserKey, Sequence, Compare;
    CompareReflects(UserKey(a.key), UserKey(b.key));
    InternalCompareReflects(a.key, b.key);
  }

  lemma {:induction false} NewestExists(s: set<Entry>, snap: nat, e: Entry) returns (r: Entry)
    requires e in s && Sequence(e.key) <= snap
    ensures NewestVisible(s, snap, r) && UserKey(r.key) == UserKey(e.key)
    decreases s
  {
    hide UserKey, Sequence;
    if o :| o in s && UserKey(o.key) == UserKey(e.key) && Sequence(e.key) < Sequence(o.key) <= snap {
      r := NewestExists(s - {e}, snap, o);
    } else {
      r := e;
    }
  }

  /** Every version of `all` that is not in `read` is redundant. */
  ghost predicate OnlyRedundantLeftOut(read: set<Entry>, all: set<Entry>) {
    read <= all && forall e :: e in all && e !in read ==> Redundant(read, e)
  }

  lemma StillRead(read: set<Entry>, all: set<Entry>, snap: nat, e: Entry)
    requires OnlyRedundantLeftOut(read, all) && Shown(all, snap, e)
    ensures ReadsFrom(read, snap, UserKey(e.key), e.value)
  {
    hide UserKey, Sequence;
    if e in read {
      assert Shown(read, snap, e);
    } else {
      var r :| NewestVisible(read, Sequence(e.key), r) && UserKey(r.key) == UserKey(e.key);
      assert Shown(read, snap, r);
    }
  }

  lemma NothingElseRead(read: set<Entry>, all: set<Entry>, snap: nat, r: Entry)
    requires OnlyRedundantLeftOut(read, all) && DistinctKeys(all) && Shown(read, snap, r)
    ensures ReadsFrom(all, snap, UserKey(r.key), r.value)
  {
    hide UserKey, Sequence;
    var e := NewestExists(all, snap, r);
    if e in read {
      assert NewestVisible(read, snap, e);
      NewestUnique(read, snap, e, r);
    } else {
      assert NewestVisible(read, Sequence(e.key), r);
    }
    assert Shown(all, snap, e);
  }

  /** Leaving redundant versions out changes no read. */
  lemma RedundantUnread(read: set<Entry>, all: set<Entry>, snap: nat, k: Bytes, v: Bytes)
    requires OnlyRedundantLeftOut(read, all) && DistinctKeys(all)
    ensures ReadsFrom(read, snap, k, v) <==> ReadsFrom(all, snap, k, v)
  {
    hide UserKey, Shown, OnlyRedundantLeftOut, DistinctKeys;
    if ReadsFrom(all, snap, k, v) {
      var e :| Shown(all, snap, e) && UserKey(e.key) == k && e.value == v;
      StillRead(read, all, snap, e);
    }
    if ReadsFrom(read, snap, k, v) {
      var r :| Shown(read, snap, r) && UserKey(r.key) == k && r.value == v;
      NothingElseRead(read, all, snap, r);
    }
  }

  /** A version that is left out and not redundant changes the read at its own number. */
  lemma UnreadIsRedundant(read: set<Entry>, all: set<Entry>, e: Entry)
    requires read <= all && DistinctKeys(all) && e in all
    requires forall v :: ReadsFrom(read, Sequence(e.key), UserKey(e.key), v)
                    <==> ReadsFrom(all, Sequence(e.key), UserKey(e.key), v)
    ensures Redundant(read, e)
  {
    hide UserKey, Sequence;
    var q, k := Sequence(e.key), UserKey(e.key);
    assert NewestVisible(all, q, e);
    if e.value != [] {
      assert Shown(all, q, e) && ReadsFrom(all, q, k, e.value);
      assert ReadsFrom(read, q, k, e.value);
    }
    forall r | NewestVisible(read, q, r) && UserKey(r.key) == k ensures r.value == e.value {
      if r.value != [] {
        assert Shown(read, q, r) && ReadsFrom(read, q, k, r.value);
        var o :| Shown(all, q, o) && UserKey(o.key) == k && o.value == r.value;
        NewestUnique(all, q, o, e);
      } else if e.value != [] {
        var o :| Shown(read, q, o) && UserKey(o.key) == k && o.value == e.value;
        NewestUnique(read, q, o, r);
      }
    }
  }

  /** The versions `new_iterator` does not read are those of the frozen memtables before the last. */
  ghost predicate Unread(s: Store, e: Entry) {
    exists i :: 0 <= i < |s.imems| - 1 && e in s.imems[i]
  }

  lemma UnreadVersions(s: Store, log: Log, e: Entry)
    requires Inv(s, log)
    ensures e in Union(AllLists(s)) && e !in Union(ReadLists(s)) <==> Unread(s, e)
  {
    hide Radix, Versions, WellFormed, TableLists, Sorted;
    var a, b, n := AllLists(s), ReadLists(s), |s.imems|;
    if Unread(s, e) {
      var i :| 0 <= i < n - 1 && e in s.imems[i];
      assert e in a[1 + i];
      forall j | 0 <= j < |b| ensures e !in b[j] {
        assert b[j] == a[if j == 0 then 0 else j + n - 1];
        assert NoSharedKey(a[1 + i], a[if j == 0 then 0 else j + n - 1]);
      }
    }
    if e in Union(a) {
      var i :| 0 <= i < |a| && e in a[i];
      if 1 <= i < n {
        assert s.imems[i - 1] == a[i];
      } else {
        assert e in b[if i == 0 || n == 0 then i else i - n + 1];
      }
    }
  }

  /** Reads at every snapshot are right exactly when every version in an unread memtable is redundant. */
  lemma ReadsRightIff(s: Store, log: Log)
    requires Inv(s, log)
    ensures (forall snap: nat, k, v :: Reads(ReadLists(s), snap, k, v) <==> LogReads(log, snap, k, v))
       <==> (forall e :: Unread(s, e) ==> Redundant(Union(ReadLists(s)), e))
  {
    hide Radix, Versions, WellFormed, Union, Mergeable, LogReads, Redundant, Unread, Sequence, UserKey, Shown, Reads, ReadsFrom;
    var read, all := Union(ReadLists(s)), Union(AllLists(s));
    UnionDistinct(AllLists(s));
    ReadsSubset(s, log);
    forall snap: nat, k, v
      ensures ReadsFrom(all, snap, k, v) <==> LogReads(log, snap, k, v)
      ensures ReadsFrom(read, snap, k, v) <==> Reads(ReadLists(s), snap, k, v)
    {
      VersionsRead(log, AllLists(s), snap, k, v);
      ReadsIsReadsFrom(AllLists(s), snap, k, v);
      ReadsIsReadsFrom(ReadLists(s), snap, k, v);
    }
    forall e ensures e in all && e !in read <==> Unread(s, e) {
      UnreadVersions(s, log, e);
    }
    if forall e :: Unread(s, e) ==> Redundant(read, e) {
      forall snap: nat, k, v ensures ReadsFrom(read, snap, k, v) <==> ReadsFrom(all, snap, k, v) {
        RedundantUnread(read, all, snap, k, v);
      }
    }
    if forall snap: nat, k, v :: Reads(ReadLists(s), snap, k, v) <==> LogReads(log, snap, k, v) {
      forall e | Unread(s, e) ensures Redundant(read, e) {
        UnreadIsRedundant(read, all, e);
      }
    }
  }

  lemma ReadsIsReadsFrom(lists: seq<seq<Entry>>, snap: nat, k: Bytes, v: Bytes)
    ensures Reads(lists, snap, k, v) <==> ReadsFrom(Union(lists), snap, k, v)
  {
  }

  lemma ReadsSubset(s: Store, log: Log)
    requires Inv(s, log)
    ensures Union(ReadLists(s)) <= Union(AllLists(s))
  {
    hide Radix, Versions, WellFormed, TableLists, Sorted;
    var a, b, n := AllLists(s), ReadLists(s), |s.imems|;
    forall e | e in Union(b) ensures e in Union(a) {
      var j :| 0 <= j < |b| && e in b[j];
      assert b[j] == a[if j == 0 || n == 0 then j else j + n - 1];
    }
  }

  /** Two frozen memtables: the write of `k` is in the history, but a read at its number does not find it. */
  lemma FrozenTwice(k: Bytes, v: Bytes, q: Pair) returns (states: seq<Store>, steps: seq<Step>)
    requires v != []
    ensures Run(states, steps) && |steps| == 4 && |states[4].imems| == 2
    ensures LogReads(History(steps), 0, k, v)
    ensures AllWellFormed(states[4].tables) && !Reads(ReadLists(states[4]), 0, k, v)
  {
    hide Sequence, UserKey, Radix, MakeInternalKey, Mergeable;
    var p := Pair(k, v);
    assert Radix(8) > 2 by { BigRadix(); }
    EmptyInv();
    var s1 := PutPossible(EMPTY, [], p);
    PutKeeps(EMPTY, [], p, s1);
    assert NewVersion(EMPTY, p) in s1.mem;
    var s2 := s1.(mem := [], imems := s1.imems + [s1.mem]);
    FreezeKeeps(s1, [] + [Some(p)], s2);
    var s3 := PutPossible(s2, [] + [Some(p)], q);
    assert NewVersion(s2, q) in s3.mem;
    var s4 := s3.(mem := [], imems := s3.imems + [s3.mem]);
    states, steps := [EMPTY, s1, s2, s3, s4], [Put(p), Freeze, Put(q), Freeze];
    FourWrites(p, q);
    assert LastWrite([Some(p), Some(q)], 0, k, 0);
    assert ReadLists(s4) == [[], s3.mem];
    forall e | e in Union(ReadLists(s4)) ensures Sequence(e.key) == 1 {
      assert e in s3.mem && e == NewVersion(s2, q);
      InternalKeyParts(q.key, 1);
    }
  }

  lemma BigRadix()
    ensures Radix(8) > 2
  {
    assert Radix(8) == 256 * Radix(7) && Radix(7) > 0;
  }

  lemma FourWrites(p: Pair, q: Pair)
    ensures History([Put(p), Freeze, Put(q), Freeze]) == [Some(p), Some(q)]
  {
    var steps := [Put(p), Freeze, Put(q), Freeze];
    assert steps[..3] == [Put(p), Freeze, Put(q)] && steps[..3][..2] == [Put(p), Freeze];
    assert [Put(p), Freeze][..1] == [Put(p)] && [Put(p)][..0] == [];
    assert History([Put(p)]) == [Some(p)];
    assert History([Put(p), Freeze]) == [Some(p)];
  }

  /** In every run, at every moment with at most one frozen memtable, reading at a snapshot is reading the history. */
  lemma RunReads(states: seq<Store>, steps: seq<Step>, i: nat, snap: nat, k: Bytes, v: Bytes)
    requires Run(states, steps) && i < |states| && |states[i].imems| <= 1
    ensures AllWellFormed(states[i].tables)
    ensures Reads(ReadLists(states[i]), snap, k, v) <==> LogReads(History(steps[..i]), snap, k, v)
  {
    hide Reads, LogReads, Next, Union, Versions, Mergeable, Radix;
    RunHolds(states, steps, i);
    ReadsAllIff(states[i], History(steps[..i]));
    VersionsRead(History(steps[..i]), ReadLists(states[i]), snap, k, v);
  }

  // ----- snapshots -----

  /** Later writes do not change what is read at `snap`. */
  ghost predicate Repeatable(log: Log, snap: nat) {
    forall more, k, v :: LogReads(log + more, snap, k, v) <==> LogReads(log, snap, k, v)
  }

  lemma EarlierUnchanged(log: Log, more: Log, snap: nat, k: Bytes, v: Bytes)
    requires snap < |log|
    ensures LogReads(log + more, snap, k, v) <==> LogReads(log, snap, k, v)
  {
    var longer := log + more;
    assert forall i :: 0 <= i <= snap ==> longer[i] == log[i];
    forall i: nat ensures LastWrite(longer, snap, k, i) <==> LastWrite(log, snap, k, i) {
    }
    if LogReads(longer, snap, k, v) {
      var i: nat :| LastWrite(longer, snap, k, i) && longer[i].value.value == v;
      assert LastWrite(log, snap, k, i);
    }
    if LogReads(log, snap, k, v) {
      var i: nat :| LastWrite(log, snap, k, i) && log[i].value.value == v;
      assert LastWrite(longer, snap, k, i);
    }
  }

  lemma ReadsOneValue(log: Log, snap: nat, k: Bytes, v: Bytes, w: Bytes)
    requires LogReads(log, snap, k, v) && LogReads(log, snap, k, w)
    ensures v == w
  {
    var i: nat :| LastWrite(log, snap, k, i) && log[i].value.value == v;
    var j: nat :| LastWrite(log, snap, k, j) && log[j].value.value == w;
    assert i == j;
  }

  /** The next write is visible at any snapshot from its number on, and so at the default one, `nextSeq`. */
  lemma NextWriteVisible(log: Log, snap: nat, p: Pair)
    requires snap >= |log| && p.value != []
    ensures LogReads(log + [Some(p)], snap, p.key, p.value)
  {
    assert LastWrite(log + [Some(p)], snap, p.key, |log|);
  }

  /** A snapshot is repeatable exactly when its number was used by a write; the default snapshot is not. */
  lemma RepeatableIff(log: Log, snap: nat)
    ensures Repeatable(log, snap) <==> snap < |log|
  {
    if snap < |log| {
      forall more, k, v ensures LogReads(log + more, snap, k, v) <==> LogReads(log, snap, k, v) {
        EarlierUnchanged(log, more, snap, k, v);
      }
    } else {
      NextWriteVisible(log, snap, Pair([], [1]));
      NextWriteVisible(log, snap, Pair([], [2]));
      if LogReads(log, snap, [], [1]) && LogReads(log, snap, [], [2]) {
        ReadsOneValue(log, snap, [], [1], [2]);
      }
    }
  }

  lemma {:induction false} HistoryGrows(steps: seq<Step>, i: nat, j: nat) returns (more: Log)
    requires i <= j <= |steps|
    ensures History(steps[..j]) == History(steps[..i]) + more
    decreases j
  {
    if i == j {
      more := [];
    } else {
      var before := HistoryGrows(steps, i, j - 1);
      assert steps[..j][..j - 1] == steps[..j - 1];
      more := before + Written(steps[j - 1]);
    }
  }

  /** A snapshot numbered below the next sequence number reads the same at every later moment of a run,
      whatever is written, frozen or flushed in between. */
  lemma RunRepeats(states: seq<Store>, steps: seq<Step>, i: nat, j: nat, snap: nat, k: Bytes, v: Bytes)
    requires Run(states, steps) && i <= j < |states| && snap < states[i].nextSeq
    requires |states[i].imems| <= 1 && |states[j].imems| <= 1
    ensures AllWellFormed(states[i].tables) && AllWellFormed(states[j].tables)
    ensures Reads(ReadLists(states[j]), snap, k, v) <==> Reads(ReadLists(states[i]), snap, k, v)
  {
    hide Reads, LogReads, Next, Union, Versions, Mergeable, Radix, History, ReadLists, WellFormed;
    RunHolds(states, steps, i);
    RunReads(states, steps, i, snap, k, v);
    RunReads(states, steps, j, snap, k, v);
    var more := HistoryGrows(steps, i, j);
    EarlierUnchanged(History(steps[..i]), more, snap, k, v);
  }

  // ----- opening the sources -----

  /** Sources over distinct objects of `repr`, with the given contents. */
  ghost predicate Opened(sources: seq<Source>, alls: seq<seq<Entry>>, repr: set<object>)
    reads repr
  {
    && |sources| == |alls|
    && (forall i :: 0 <= i < |sources| ==> sources[i].Base() <= repr)
    && (forall i :: 0 <= i < |sources| ==> sources[i].Repr() <= repr)
    && (forall i :: 0 <= i < |sources| ==> sources[i].Valid() && sources[i].All() == alls[i])
    && (forall i, j :: 0 <= i < j < |sources| ==> sources[i].Repr() !! sources[j].Repr())
  }

  lemma OpenedMore(sources: seq<Source>, alls: seq<seq<Entry>>, repr: set<object>, more: Source)
    requires Opened(sources, alls, repr) && more.Valid() && more.Repr() !! repr
    ensures Opened(sources + [more], alls + [more.All()], repr + more.Repr())
  {
    hide Source.Valid, Source.All, Source.Repr, Source.Base;
  }

  method AddMemtable(sources: seq<Source>, ghost alls: seq<seq<Entry>>, ghost repr: set<object>, mem: seq<Entry>)
    returns (more: seq<Source>, ghost repr': set<object>)
    requires Opened(sources, alls, repr) && Sorted(mem)
    ensures Opened(more, alls + [mem], repr') && fresh(repr' - repr)
  {
    hide Sorted, Opened;
    var it := new MemIterator(mem);
    OpenedMore(sources, alls, repr, Mem(it));
    more, repr' := sources + [Mem(it)], repr + {it};
  }

  method AddTable(sources: seq<Source>, ghost alls: seq<seq<Entry>>, ghost repr: set<object>, t: Table)
    returns (more: seq<Source>, ghost repr': set<object>)
    requires Opened(sources, alls, repr) && WellFormed(t)
    ensures Opened(more, alls + [Flatten(Parts(t))], repr') && fresh(repr' - repr)
  {
    hide TableHolds, Flatten, Opened;
    var it := new TableIterator(t, Parts(t));
    OpenedMore(sources, alls, repr, Tab(it));
    more, repr' := sources + [Tab(it)], repr + it.Repr();
  }

  /** The sources of `new_iterator`: the memtable, the last frozen one if any, then the tables. */
  method OpenSources(s: Store) returns (sources: seq<Source>, ghost repr: set<object>)
    requires AllWellFormed(s.tables) && Mergeable(ReadLists(s))
    ensures Opened(sources, ReadLists(s), repr) && fresh(repr)
  {
    hide WellFormed, Flatten, Sorted, Mergeable, Opened;
    assert Sorted(s.mem) && (s.imems != [] ==> Sorted(s.imems[|s.imems| - 1])) by { MemtablesSorted(s); }
    assert Opened([], [], {}) by { NothingOpened(); }
    sources, repr := AddMemtable([], [], {}, s.mem);
    ghost var mems := [s.mem];
    assert [] + [s.mem] == mems;
    if s.imems != [] {
      var imem := s.imems[|s.imems| - 1];
      sources, repr := AddMemtable(sources, mems, repr, imem);
      mems := mems + [imem];
    }
    assert mems + TableLists(s.tables)[..0] == mems;
    for i := 0 to |s.tables|
      invariant Opened(sources, mems + TableLists(s.tables)[..i], repr) && fresh(repr)
    {
      sources, repr := AddTable(sources, mems + TableLists(s.tables)[..i], repr, s.tables[i]);
      assert mems + TableLists(s.tables)[..i] + [Flatten(Parts(s.tables[i]))] == mems + TableLists(s.tables)[..i + 1];
    }
    assert mems + TableLists(s.tables)[..|s.tables|] == ReadLists(s);
  }

  lemma NothingOpened()
    ensures Opened([], [], {})
  {
  }

  lemma MemtablesSorted(s: Store)
    requires AllWellFormed(s.tables) && Mergeable(ReadLists(s))
    ensures Sorted(s.mem) && (s.imems != [] ==> Sorted(s.imems[|s.imems| - 1]))
  {
    hide Sorted, WellFormed, TableLists;
    assert ReadLists(s)[0] == s.mem;
    if s.imems != [] {
      assert ReadLists(s)[1] == s.imems[|s.imems| - 1];
    }
  }

  method NewIterator(s: Store, snap: nat) returns (it: UserIterator)
    requires AllWellFormed(s.tables) && Mergeable(ReadLists(s)) && snap < Radix(8)
    ensures it.Valid() && it.Pending() == [] && it.lookupKey == [] && it.snap == snap
    ensures it.iter.alls == ReadLists(s) && fresh(it) && fresh(it.iter) && fresh(it.iter.Repr)
  {
    hide WellFormed, TableLists, Mergeable, Radix, Source.Valid, Source.All, Source.Repr, Source.Base;
    var sources, repr := OpenSources(s);
    var merging := new MergingIterator(sources, ReadLists(s), repr);
    it := new UserIterator(merging, snap);
  }

  /** `get` at a snapshot: with at most one frozen memtable, the last write of the key up to it, unless that deleted it. */
  method GetAt(s: Store, ghost log: Log, snap: nat, key: Bytes) returns (r: Answer)
    requires Inv(s, log) && snap < Radix(8) && |key| + SEQ_SIZE < Radix(8)
    ensures forall v :: r == Found(v) <==> Reads(ReadLists(s), snap, key, v)
    ensures |s.imems| <= 1 ==> forall v :: r == Found(v) <==> LogReads(log, snap, key, v)
  {
    hide Reads, LogReads, Union, Versions, Mergeable, Radix, UserIterator.Valid, WellFormed;
    ReadsAllIff(s, log);
    var it := NewIterator(s, snap);
    assert it.Ready() by { IteratorReady(it); }
    r := Get(it, key);
    if |s.imems| <= 1 {
      forall v ensures r == Found(v) <==> LogReads(log, snap, key, v) {
        VersionsRead(log, ReadLists(s), snap, key, v);
      }
    }
  }

  lemma IteratorReady(it: UserIterator)
    requires it.Valid()
    ensures it.Ready()
  {
  }

  /** A scan at a snapshot: with at most one frozen memtable, every key whose last write up to it was not a deletion,
      once, ascending, with that value. */
  method ScanAt(s: Store, ghost log: Log, snap: nat) returns (out: seq<(Bytes, Bytes)>)
    requires Inv(s, log) && snap < Radix(8)
    ensures PairsAscending(out)
    ensures forall k, v :: (k, v) in out <==> Reads(ReadLists(s), snap, k, v)
    ensures |s.imems| <= 1 ==> forall k, v :: (k, v) in out <==> LogReads(log, snap, k, v)
  {
    hide Reads, LogReads, Union, Versions, Mergeable, Radix, UserIterator.Valid, WellFormed, PairsAscending;
    ReadsAllIff(s, log);
    var it := NewIterator(s, snap);
    assert it.Ready() by { IteratorReady(it); }
    out := Scan(it);
    if |s.imems| <= 1 {
      forall k, v ensures (k, v) in out <==> LogReads(log, snap, k, v) {
        VersionsRead(log, ReadLists(s), snap, k, v);
      }
    }
  }
}
