/** Whole reads through the iterator stack: scanning a snapshot, looking up one key, seeking again. */
module LsmRead {
  import opened Bytes
  import opened LsmKeys
  import opened LsmBlock
  import opened LsmTable
  import opened LsmView
  import opened LsmMerge
  import opened LsmUser

  /** The pair (k, v) is the newest visible, undeleted version of `k` in the sources. */
  ghost predicate Reads(alls: seq<seq<Entry>>, snap: nat, k: Bytes, v: Bytes) {
    exists e :: Shown(Union(alls), snap, e) && UserKey(e.key) == k && e.value == v
  }

  ghost predicate PairsAscending(out: seq<(Bytes, Bytes)>) {
    forall i, j :: 0 <= i < j < |out| ==> UserLess(out[i].0, out[j].0)
  }

  lemma OutputMeaning(alls: seq<seq<Entry>>, snap: nat)
    requires Mergeable(alls)
    ensures PairsAscending(Output(Shows(alls, snap)))
    ensures forall k, v :: (k, v) in Output(Shows(alls, snap)) <==> Reads(alls, snap, k, v)
  {
    hide View, Compare, Shown, Union, Mergeable;
    UnionDistinct(alls);
    SnapshotIsNewestPerKey(Union(alls), snap);
    var es := Shows(alls, snap);
    var out := Output(es);
    forall k, v ensures (k, v) in out <==> Reads(alls, snap, k, v) {
      if (k, v) in out {
        var i :| 0 <= i < |out| && out[i] == (k, v);
        assert es[i] in es;
      }
      if Reads(alls, snap, k, v) {
        var e :| Shown(Union(alls), snap, e) && UserKey(e.key) == k && e.value == v;
        var i :| 0 <= i < |es| && es[i] == e;
        assert out[i] == (k, v);
      }
    }
  }

  /** From the first entry to the end: every key readable at the snapshot, once, in ascending order. */
  method Scan(it: UserIterator) returns (out: seq<(Bytes, Bytes)>)
    requires it.Ready()
    modifies it, it.iter.Repr
    ensures PairsAscending(out)
    ensures forall k, v :: (k, v) in out <==> Reads(it.iter.alls, it.snap, k, v)
  {
    hide View, Compare, Shown, Union, Mergeable, SortedSeq, Radix, LookupReadable, FromCurrent;
    hide MergingIterator.ChildrenValid, MergingIterator.Positioned, IsChoice, PairsAscending, Reads;
    it.SeekToFirst();
    out := [];
    ghost var all := it.Pending();
    while it.valid
      invariant it.Valid() && fresh(it.iter.Repr - old(it.iter.Repr))
      invariant |out| <= |all| && it.Pending() == all[|out|..]
      invariant out == Output(all)[..|out|]
      decreases |all| - |out|
    {
      it.AtCurrent();
      out := out + [(it.Key(), it.Value())];
      it.Next();
    }
    assert |out| == |all| && out == Output(all);
    OutputMeaning(it.iter.alls, it.snap);
  }

  datatype Answer = Found(value: Bytes) | NotExist

  lemma {:induction false} FirstFromUser(es: seq<Entry>, key: Bytes)
    requires Sorted(es) && UserAscending(es)
    ensures var r := FromUser(es, key);
      forall e :: e in es && UserKey(e.key) == key <==> r != [] && UserKey(r[0].key) == key && e == r[0]
  {
    if es != [] {
      SortedTail(es);
      CompareReflects(UserKey(es[0].key), key);
      if Compare(UserKey(es[0].key), key) >= 0 {
        forall e | e in es[1..] ensures UserLess(UserKey(es[0].key), UserKey(e.key)) && UserKey(e.key) != key {
          CompareReflects(UserKey(e.key), key);
          var i :| 0 <= i < |es[1..]| && es[1..][i] == e;
          assert UserLess(UserKey(es[0].key), UserKey(es[i + 1].key));
        }
      } else {
        FirstFromUser(es[1..], key);
      }
    }
  }

  /** A point lookup finds the newest visible version of the key, and nothing if there is none or it is a deletion. */
  method Get(it: UserIterator, key: Bytes) returns (r: Answer)
    requires it.Ready() && it.lookupKey == [] && |key| + SEQ_SIZE < Radix(8)
    modifies it, it.iter.Repr
    ensures forall v :: r == Found(v) <==> Reads(it.iter.alls, it.snap, key, v)
  {
    hide View, Compare, Union, Mergeable, SortedSeq, Radix, LookupReadable, Sequence, LookupKey, FromUser;
    hide MergingIterator.ChildrenValid, MergingIterator.Positioned, IsChoice, SeekShows, Sorted, UserAscending;
    it.Seek(key);
    ghost var shown := Shows(it.iter.alls, it.snap);
    UnionDistinct(it.iter.alls);
    SnapshotIsNewestPerKey(Union(it.iter.alls), it.snap);
    ViewAscending(SortedSeq(Union(it.iter.alls)), it.snap, NoSkip);
    FirstFromUser(shown, key);
    ghost var pending := it.Pending();
    ghost var s := Union(it.iter.alls);
    it.AtCurrent();
    assert forall e :: Shown(s, it.snap, e) <==> e in shown;
    if it.valid && it.Key() == key {
      assert forall e :: Shown(s, it.snap, e) && UserKey(e.key) == key <==> e == pending[0];
      assert Shown(s, it.snap, pending[0]);
      if it.Value() == [] {
        r := NotExist;
      } else {
        r := Found(it.Value());
      }
    } else {
      r := NotExist;
    }
  }

  // ----- seeking more than once -----

  /** Whatever the store holds, positioning by `lookup` shows the snapshot from `target` on. */
  ghost predicate SeeksRight(lookup: Bytes, target: Bytes, snap: nat)
    requires LookupReadable(lookup)
  {
    forall kinds, alls, rests :: Mergeable(alls) && Mergeable(rests) && SeekRests(kinds, alls, lookup, rests)
      ==> Shows(rests, snap) == FromUser(Shows(alls, snap), target)
  }

  lemma ShowsOne(e: Entry, snap: nat)
    requires Sequence(e.key) <= snap && e.value != []
    ensures Mergeable([[], [e]]) && Shows([[], [e]], snap) == [e]
  {
    hide View, Compare, Sequence, SortedSeq;
    var r := [[], [e]];
    assert e in r[1] && e in Union(r);
    assert forall x :: x in Union(r) ==> x in r[0] || x in r[1];
    assert Union(r) == {e};
    UnionDistinct(r);
    SnapshotIsNewestPerKey({e}, snap);
    ViewAscending(SortedSeq({e}), snap, NoSkip);
    assert Shown({e}, snap, e);
    SortedUnique(Snapshot({e}, snap), [e]);
  }

  lemma ShowsNone(snap: nat)
    ensures Mergeable([[], []]) && Shows([[], []], snap) == []
  {
    assert Union([[], []]) == {};
    assert SortedSeq({}) == [];
  }

  /** Seeking is right for every store exactly when the iterator has not sought before. */
  lemma SeekRightIffFirst(before: Bytes, target: Bytes, snap: nat)
    requires before == [] || LookupReadable(before)
    requires |target| + SEQ_SIZE < Radix(8) && snap < Radix(8)
    ensures LookupReadable(before + LookupKey(target, snap))
    ensures SeeksRight(before + LookupKey(target, snap), target, snap) <==> before == []
  {
    hide View, Compare, Sequence, SortedSeq, Union, Radix, LookupReadable, LookupKey, SeekRests, Mergeable, FromUser;
    AppendLookup(before, target, snap);
    var lookup := before + LookupKey(target, snap);
    if before == [] {
      assert lookup == LookupKey(target, snap);
      forall kinds, alls, rests | Mergeable(alls) && Mergeable(rests) && SeekRests(kinds, alls, lookup, rests)
        ensures Shows(rests, snap) == FromUser(Shows(alls, snap), target)
      {
        FirstSeekShowsSuffix(kinds, alls, rests, target, snap);
      }
    } else {
      var alls, rests := SeekAgainGoesWrong(before, target, snap);
    }
  }

  /** After an earlier seek, an empty memtable and a table of one entry are enough to go wrong: tables read the old lookup key,
      the new length, and the target as one long user key. */
  lemma SeekAgainGoesWrong(before: Bytes, target: Bytes, snap: nat) returns (alls: seq<seq<Entry>>, rests: seq<seq<Entry>>)
    requires LookupReadable(before) && LookupReadable(before + LookupKey(target, snap))
    requires snap < Radix(8)
    ensures Mergeable(alls) && Mergeable(rests)
    ensures SeekRests([true, false], alls, before + LookupKey(target, snap), rests)
    ensures Shows(rests, snap) != FromUser(Shows(alls, snap), target)
  {
    hide View, Compare, SortedSeq, Union, Radix, Mergeable, InternalCompare, Shows;
    var lookup := before + LookupKey(target, snap);
    var read := LookupUserKey(lookup);
    assert |read| > |target|;
    CompareReflects(read, target);
    var user := if Compare(target, read) < 0 then target else read;
    InternalKeyParts(user, snap);
    var e := Entry(MakeInternalKey(user, snap), [1]);
    ShowsOne(e, snap);
    ShowsNone(snap);
    CompareReflects(user, user);
    alls := [[], [e]];
    rests := if Compare(target, read) < 0 then [[], []] else [[], [e]];
    assert FromUser([e], target) == if Compare(user, target) >= 0 then [e] else [];
  }

  lemma {:induction false} ExtensionIsGreater(a: Bytes, b: Bytes)
    requires b != []
    ensures Compare(a, a + b) < 0
  {
    if a != [] {
      ExtensionIsGreater(a[1..], b);
      assert (a + b)[1..] == a[1..] + b;
    }
  }

  /** Seeking the same key twice in a table that holds just that key loses it the second time. */
  lemma SeekSameKeyTwice(key: Bytes, snap: nat, value: Bytes)
    requires |key| + SEQ_SIZE < Radix(8) && snap < Radix(8) && value != []
    ensures var all := [Entry(MakeInternalKey(key, snap), value)];
      && LookupReadable(LookupKey(key, snap)) && SeekRest(false, all, LookupKey(key, snap), all)
      && var again := LookupKey(key, snap) + LookupKey(key, snap);
         LookupReadable(again) && SeekRest(false, all, again, [])
  {
    hide Compare, Radix, GetNumeric, PutNumeric;
    LookupParts(key, snap, []);
    LookupParts(key, snap, LookupKey(key, snap));
    assert LookupKey(key, snap) + [] == LookupKey(key, snap);
    InternalKeyParts(key, snap);
    CompareReflects(key, key);
    var again := LookupKey(key, snap) + LookupKey(key, snap);
    assert LookupUserKey(again) == key + LookupUserKey(again)[|key|..];
    ExtensionIsGreater(key, LookupUserKey(again)[|key|..]);
  }
}
