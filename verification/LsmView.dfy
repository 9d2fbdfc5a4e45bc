/** What the read path is meant to show, stated without iterators.
    `SortedSeq` is the merged order of all versions; `View` is the list a snapshot reader walks;
    `Shown` says, for one version, whether a reader of the snapshot sees it. */
module LsmView {
  import opened Bytes
  import opened LsmKeys

  // ----- the merged order -----

  ghost predicate DistinctKeys(s: set<Entry>) {
    forall a, b :: a in s && b in s && a.key == b.key ==> a == b
  }

  ghost predicate IsLeast(e: Entry, s: set<Entry>) {
    e in s && forall o :: o in s && o != e ==> KeyLess(e.key, o.key)
  }

  lemma {:induction false} LeastExists(s: set<Entry>) returns (e: Entry)
    requires s != {} && DistinctKeys(s)
    ensures IsLeast(e, s)
  {
    e :| e in s;
    if s != {e} {
      var rest := s - {e};
      var m := LeastExists(rest);
      InternalCompareReflects(e.key, m.key);
      if KeyLess(m.key, e.key) {
        e := m;
      } else {
        forall o | o in s && o != e ensures KeyLess(e.key, o.key) {
          if o != m {
            InternalCompareTransitive(e.key, m.key, o.key);
          }
        }
      }
    }
  }

  /** All entries of `s` in ascending internal-key order. */
  ghost function SortedSeq(s: set<Entry>): (r: seq<Entry>)
    requires DistinctKeys(s)
    ensures Sorted(r)
    ensures forall e :: e in r <==> e in s
  {
    if s == {} then []
    else
      LeastIsThere(s);
      var e :| IsLeast(e, s);
      [e] + SortedSeq(s - {e})
  }

  lemma LeastIsThere(s: set<Entry>)
    requires s != {} && DistinctKeys(s)
    ensures exists e :: IsLeast(e, s)
  {
    var e := LeastExists(s);
  }

  lemma SortedTail(es: seq<Entry>)
    requires Sorted(es) && es != []
    ensures Sorted(es[1..])
    ensures forall e :: e in es[1..] ==> KeyLess(es[0].key, e.key)
    ensures forall e :: e in es <==> e == es[0] || e in es[1..]
    ensures es[0] !in es[1..]
  {
    InternalCompareReflects(es[0].key, es[0].key);
    assert es == [es[0]] + es[1..];
  }

  /** A sorted list is determined by its elements. */
  lemma {:induction false} SortedUnique(a: seq<Entry>, b: seq<Entry>)
    requires Sorted(a) && Sorted(b)
    requires forall e :: e in a <==> e in b
    ensures a == b
  {
    hide InternalCompare;
    assert forall i :: 0 <= i < |a| ==> a[i] in b;
    assert forall i :: 0 <= i < |b| ==> b[i] in a;
    if a != [] && b != [] {
      SortedTail(a);
      SortedTail(b);
      InternalCompareReflects(a[0].key, b[0].key);
      SortedUnique(a[1..], b[1..]);
      assert a == [a[0]] + a[1..] && b == [b[0]] + b[1..];
    }
  }

  /** Removing the least entry removes the head of the merged order. */
  lemma SortedSeqStep(s: set<Entry>, e: Entry)
    requires DistinctKeys(s) && IsLeast(e, s)
    ensures SortedSeq(s) == [e] + SortedSeq(s - {e})
  {
    var r := [e] + SortedSeq(s - {e});
    forall i, j | 0 <= i < j < |r| ensures KeyLess(r[i].key, r[j].key) {
      if i == 0 {
        assert r[j] in SortedSeq(s - {e});
      }
    }
    SortedUnique(SortedSeq(s), r);
  }

  // ----- the snapshot reader's list -----

  /** The user key up to which versions are skipped, if any. */
  datatype Skip = NoSkip | SkipTo(user: Bytes) {
    predicate Covers(u: Bytes) {
      SkipTo? && Compare(u, user) <= 0
    }
  }

  /** The versions shown while walking `rest`: the newest version of each user key at or below `snap`,
      unless it is a deletion (an empty value). */
  ghost function View(rest: seq<Entry>, snap: nat, skip: Skip): seq<Entry> {
    if rest == [] then []
    else
      var e := rest[0];
      if Sequence(e.key) > snap || skip.Covers(UserKey(e.key)) then View(rest[1..], snap, skip)
      else
        var later := View(rest[1..], snap, SkipTo(UserKey(e.key)));
        if e.value == [] then later else [e] + later
  }

  /** `e` is the newest version of its user key at or below `snap` among `s`. */
  ghost predicate NewestVisible(s: set<Entry>, snap: nat, e: Entry) {
    && e in s
    && Sequence(e.key) <= snap
    && forall o :: o in s && UserKey(o.key) == UserKey(e.key) && Sequence(o.key) <= snap
        ==> Sequence(o.key) <= Sequence(e.key)
  }

  ghost predicate Shown(s: set<Entry>, snap: nat, e: Entry) {
    NewestVisible(s, snap, e) && e.value != []
  }

  ghost function Elements(es: seq<Entry>): set<Entry> {
    set e | e in es
  }

  lemma {:induction false} ViewMembers(rest: seq<Entry>, snap: nat, skip: Skip, e: Entry)
    requires Sorted(rest)
    ensures e in View(rest, snap, skip)
       <==> Shown(Elements(rest), snap, e) && !skip.Covers(UserKey(e.key))
  {
    hide Compare, Sequence, UserKey, Sorted;
    if rest != [] {
      var h := rest[0];
      var tail := rest[1..];
      SortedTail(rest);
      CompareReflects(UserKey(h.key), UserKey(h.key));
      CompareReflects(UserKey(h.key), UserKey(e.key));
      assert forall o :: o in tail && UserKey(o.key) == UserKey(h.key) ==> Sequence(o.key) < Sequence(h.key);
      assert forall o :: o in Elements(rest) <==> o == h || o in Elements(tail);
      if Sequence(h.key) > snap || skip.Covers(UserKey(h.key)) {
        ViewMembers(tail, snap, skip, e);
      } else {
        ViewMembers(tail, snap, SkipTo(UserKey(h.key)), e);
        ViewHeadTaken(rest, snap, skip, e);
      }
    }
  }

  /** The case of `ViewMembers` in which the head is the newest visible version of its key. */
  lemma ViewHeadTaken(rest: seq<Entry>, snap: nat, skip: Skip, e: Entry)
    requires Sorted(rest) && rest != []
    requires Sequence(rest[0].key) <= snap && !skip.Covers(UserKey(rest[0].key))
    ensures e != rest[0] ==>
      (Shown(Elements(rest), snap, e) && !skip.Covers(UserKey(e.key))
       <==> Shown(Elements(rest[1..]), snap, e) && !SkipTo(UserKey(rest[0].key)).Covers(UserKey(e.key)))
    ensures NewestVisible(Elements(rest), snap, rest[0])
  {
    hide Compare, Sequence, UserKey, Sorted;
    var h := rest[0];
    var hu, eu := UserKey(h.key), UserKey(e.key);
    SortedTail(rest);
    CompareReflects(hu, hu);
    CompareReflects(hu, eu);
    assert forall o :: o in Elements(rest) <==> o == h || o in Elements(rest[1..]);
    assert forall o :: o in rest[1..] ==> KeyLess(h.key, o.key);
    if e != h && e in rest {
      assert e in rest[1..];
      if hu == eu {
        assert !NewestVisible(Elements(rest), snap, e);
      } else {
        assert Compare(hu, eu) < 0;
        if skip.Covers(eu) {
          CompareTransitive(hu, eu, skip.user);
        }
        assert NewestVisible(Elements(rest), snap, e) <==> NewestVisible(Elements(rest[1..]), snap, e);
      }
    }
  }

  ghost predicate UserAscending(es: seq<Entry>) {
    forall i, j :: 0 <= i < j < |es| ==> UserLess(UserKey(es[i].key), UserKey(es[j].key))
  }

  /** A reader meets user keys in strictly ascending order. */
  lemma {:induction false} ViewAscending(rest: seq<Entry>, snap: nat, skip: Skip)
    requires Sorted(rest)
    ensures UserAscending(View(rest, snap, skip)) && Sorted(View(rest, snap, skip))
  {
    hide Compare, Sequence, UserKey, Shown;
    if rest != [] {
      var h := rest[0];
      SortedTail(rest);
      if Sequence(h.key) > snap || skip.Covers(UserKey(h.key)) {
        ViewAscending(rest[1..], snap, skip);
      } else {
        ViewAscending(rest[1..], snap, SkipTo(UserKey(h.key)));
        var later := View(rest[1..], snap, SkipTo(UserKey(h.key)));
        forall e | e in later ensures UserLess(UserKey(h.key), UserKey(e.key)) {
          ViewMembers(rest[1..], snap, SkipTo(UserKey(h.key)), e);
          CompareReflects(UserKey(e.key), UserKey(h.key));
        }
      }
    }
  }

  /** What a reader of the whole store at `snap` sees. */
  ghost function Snapshot(s: set<Entry>, snap: nat): seq<Entry>
    requires DistinctKeys(s)
  {
    View(SortedSeq(s), snap, NoSkip)
  }

  /** The reader's list is the ascending list of exactly the shown versions: one per user key. */
  lemma SnapshotIsNewestPerKey(s: set<Entry>, snap: nat)
    requires DistinctKeys(s)
    ensures UserAscending(Snapshot(s, snap))
    ensures forall e :: e in Snapshot(s, snap) <==> Shown(s, snap, e)
  {
    ViewAscending(SortedSeq(s), snap, NoSkip);
    assert Elements(SortedSeq(s)) == s;
    forall e ensures e in Snapshot(s, snap) <==> Shown(s, snap, e) {
      ViewMembers(SortedSeq(s), snap, NoSkip, e);
    }
  }

  /** Versions written after the snapshot never change what its reader sees. */
  lemma SnapshotIgnoresNewer(s: set<Entry>, newer: set<Entry>, snap: nat)
    requires DistinctKeys(s + newer)
    requires forall e :: e in newer ==> Sequence(e.key) > snap
    ensures Snapshot(s + newer, snap) == Snapshot(s, snap)
  {
    SnapshotIsNewestPerKey(s, snap);
    SnapshotIsNewestPerKey(s + newer, snap);
    ViewAscending(SortedSeq(s), snap, NoSkip);
    ViewAscending(SortedSeq(s + newer), snap, NoSkip);
    forall e ensures Shown(s, snap, e) <==> Shown(s + newer, snap, e) {
    }
    SortedUnique(Snapshot(s, snap), Snapshot(s + newer, snap));
  }

  // ----- seeking -----

  ghost function FromUser(es: seq<Entry>, target: Bytes): seq<Entry> {
    if es == [] then []
    else if Compare(UserKey(es[0].key), target) >= 0 then [es[0]] + FromUser(es[1..], target)
    else FromUser(es[1..], target)
  }

  lemma {:induction false} FromUserMembers(es: seq<Entry>, target: Bytes)
    requires Sorted(es)
    ensures Sorted(FromUser(es, target))
    ensures forall e :: e in FromUser(es, target) <==> e in es && Compare(UserKey(e.key), target) >= 0
  {
    if es != [] {
      SortedTail(es);
      FromUserMembers(es[1..], target);
    }
  }

  /** A source is well positioned for (target, snap) when it has dropped no version that is at or after
      it in internal-key order and kept none with a smaller user key. Between the two, a source
      may keep or drop versions of the target newer than the snapshot: the reader sees the same list. */
  lemma SeekShowsSuffix(s: set<Entry>, kept: set<Entry>, target: Bytes, snap: nat)
    requires DistinctKeys(s) && kept <= s
    requires forall e :: e in s && Compare(UserKey(e.key), target) > 0 ==> e in kept
    requires forall e :: e in s && UserKey(e.key) == target && Sequence(e.key) <= snap ==> e in kept
    requires forall e :: e in kept ==> Compare(UserKey(e.key), target) >= 0
    ensures Snapshot(kept, snap) == FromUser(Snapshot(s, snap), target)
  {
    SnapshotIsNewestPerKey(s, snap);
    SnapshotIsNewestPerKey(kept, snap);
    ViewAscending(SortedSeq(s), snap, NoSkip);
    ViewAscending(SortedSeq(kept), snap, NoSkip);
    FromUserMembers(Snapshot(s, snap), target);
    forall e ensures Shown(kept, snap, e) <==> Shown(s, snap, e) && Compare(UserKey(e.key), target) >= 0 {
      CompareReflects(UserKey(e.key), target);
    }
    SortedUnique(Snapshot(kept, snap), FromUser(Snapshot(s, snap), target));
  }
}
