/** The user iterator: the snapshot view over the merged versions. */
module LsmUser {
  import opened Bytes
  import opened LsmKeys
  import opened LsmBlock
  import opened LsmTable
  import opened LsmView
  import opened LsmMerge

  /** No version left to read has a user key before `u`. */
  ghost predicate NoneBefore(rest: seq<Entry>, u: Bytes) {
    forall e :: e in rest ==> Compare(u, UserKey(e.key)) <= 0
  }

  lemma NoneBeforeHead(rest: seq<Entry>)
    requires rest != [] && Sorted(rest)
    ensures NoneBefore(rest, UserKey(rest[0].key))
  {
    CompareReflects(UserKey(rest[0].key), UserKey(rest[0].key));
    SortedTail(rest);
  }

  /** One step of the search, whatever the head of the remaining versions is. */
  lemma ViewStep(rest: seq<Entry>, snap: nat, skip: Skip)
    requires rest != [] && Sorted(rest)
    requires skip.SkipTo? ==> NoneBefore(rest, skip.user)
    ensures var e := rest[0];
      && (Sequence(e.key) > snap ==> View(rest, snap, skip) == View(rest[1..], snap, skip))
      && (Sequence(e.key) <= snap && e.value == [] ==>
            View(rest, snap, skip) == View(rest[1..], snap, SkipTo(UserKey(e.key))))
      && (Sequence(e.key) <= snap && e.value != [] && skip.Covers(UserKey(e.key)) ==>
            View(rest, snap, skip) == View(rest[1..], snap, skip))
      && (Sequence(e.key) <= snap && e.value != [] && !skip.Covers(UserKey(e.key)) ==>
            View(rest, snap, skip) == [e] + View(rest[1..], snap, SkipTo(UserKey(e.key))))
    ensures Sorted(rest[1..])
    ensures skip.SkipTo? ==> NoneBefore(rest[1..], skip.user)
    ensures NoneBefore(rest[1..], UserKey(rest[0].key))
  {
    hide Compare, Sequence;
    var u := UserKey(rest[0].key);
    SortedTail(rest);
    NoneBeforeHead(rest);
    if skip.Covers(u) {
      CompareReflects(u, skip.user);
    }
  }

  /** What is still to be shown when the head of `rest` is the entry being shown. */
  ghost function FromCurrent(rest: seq<Entry>, snap: nat): seq<Entry>
    requires rest != []
  {
    [rest[0]] + View(rest[1..], snap, SkipTo(UserKey(rest[0].key)))
  }

  /** The pairs a client of the iterator receives for `es`. */
  function Output(es: seq<Entry>): seq<(Bytes, Bytes)> {
    seq(|es|, i requires 0 <= i < |es| => (UserKey(es[i].key), es[i].value))
  }

  class UserIterator {
    const iter: MergingIterator
    const snap: nat
    var lookupKey: Bytes
    var savedKey: Bytes
    var valid: bool

    /** Ready to be positioned. */
    ghost predicate Ready()
      reads this, iter, iter.Repr
    {
      && this !in iter.Repr
      && iter.ChildrenValid()
      && snap < Radix(8)
      && (lookupKey == [] || LookupReadable(lookupKey))
    }

    ghost predicate Valid()
      reads this, iter, iter.Repr
    {
      && Ready()
      && (valid ==> iter.Valid() && iter.Rest() != [])
    }

    /** What the iterator still has to show, current entry first. */
    ghost function Pending(): seq<Entry>
      reads this, iter, iter.Repr
      requires Valid()
    {
      if !valid then []
      else
        FromCurrent(iter.Rest(), snap)
    }

    constructor (iter: MergingIterator, snap: nat)
      requires iter.ChildrenValid() && snap < Radix(8)
      ensures Valid() && Pending() == [] && lookupKey == [] && fresh(this)
      ensures this.iter == iter && this.snap == snap
    {
      this.iter, this.snap := iter, snap;
      lookupKey, savedKey, valid := [], [], false;
    }

    function Key(): Bytes
      reads this, iter, iter.Repr
      requires Valid() && valid
    {
      iter.AtHead();
      UserKey(iter.Key())
    }

    function Value(): Bytes
      reads this, iter, iter.Repr
      requires Valid() && valid
    {
      iter.AtHead();
      iter.Value()
    }

    lemma AtCurrent()
      requires Valid()
      ensures valid <==> Pending() != []
      ensures valid ==> Key() == UserKey(Pending()[0].key) && Value() == Pending()[0].value
    {
    }

    /** The loop of `find_next_user_entry`. */
    method Search(skip0: Skip) returns (found: bool)
      requires Ready() && iter.Valid() && iter.IsValid()
      requires skip0.SkipTo? ==> NoneBefore(iter.Rest(), skip0.user)
      modifies iter.Repr
      ensures Ready() && iter.Valid() && fresh(iter.Repr - old(iter.Repr))
      ensures !found ==> old(View(iter.Rest(), snap, skip0)) == []
      ensures found ==> iter.Rest() != []
      ensures found ==> old(View(iter.Rest(), snap, skip0)) == FromCurrent(iter.Rest(), snap)
    {
      hide Compare, Sequence, Radix, View, SortedSeq, NoneBefore, Sorted, UserKey, LookupReadable;
      hide MergingIterator.ChildrenValid, MergingIterator.Positioned, IsChoice, Mergeable, Union;
      var skip := skip0;
      while true
        invariant Ready() && iter.Valid() && iter.IsValid() && fresh(iter.Repr - old(iter.Repr))
        invariant skip.SkipTo? ==> NoneBefore(iter.Rest(), skip.user)
        invariant View(iter.Rest(), snap, skip) == old(View(iter.Rest(), snap, skip0))
        decreases |iter.Rest()|
      {
        iter.AtHead();
        ViewStep(iter.Rest(), snap, skip);
        var userKey, value := UserKey(iter.Key()), iter.Value();
        if Sequence(iter.Key()) <= snap {
          if value == [] {
            skip := SkipTo(userKey);
          } else if !skip.Covers(userKey) {
            return true;
          }
        }
        iter.Next();
        iter.AtHead();
        if !iter.IsValid() {
          ViewOfNothing(snap, skip);
          return false;
        }
      }
    }

    /** `saved_key_` names the key to skip; it is cleared on every return. */
    method FindNextUserEntry(skipping: bool)
      requires Ready() && iter.Valid() && iter.IsValid()
      requires skipping ==> NoneBefore(iter.Rest(), savedKey)
      modifies this, iter.Repr
      ensures Valid() && fresh(iter.Repr - old(iter.Repr)) && lookupKey == old(lookupKey)
      ensures Pending() == old(View(iter.Rest(), snap, if skipping then SkipTo(savedKey) else NoSkip))
    {
      hide Compare, Radix, View, SortedSeq, NoneBefore, LookupReadable, FromCurrent;
      hide MergingIterator.ChildrenValid, MergingIterator.Positioned, IsChoice, Mergeable, Union;
      valid := Search(if skipping then SkipTo(savedKey) else NoSkip);
      savedKey := [];
    }

    method SeekToFirst()
      requires Ready()
      modifies this, iter.Repr
      ensures Valid() && fresh(iter.Repr - old(iter.Repr)) && lookupKey == old(lookupKey)
      ensures Mergeable(iter.alls) && Pending() == Shows(iter.alls, snap)
    {
      hide Compare, Radix, SortedSeq, LookupReadable, FromCurrent, Union, Mergeable;
      iter.SeekToFirst();
      iter.AtHead();
      if iter.IsValid() {
        FindNextUserEntry(false);
      } else {
        valid := false;
      }
    }

    method Next()
      requires Valid() && valid
      modifies this, iter.Repr
      ensures Valid() && fresh(iter.Repr - old(iter.Repr)) && lookupKey == old(lookupKey)
      ensures Pending() == old(Pending())[1..]
    {
      hide Compare, Radix, SortedSeq, LookupReadable, Union, Mergeable;
      hide MergingIterator.ChildrenValid, MergingIterator.Positioned, IsChoice;
      iter.AtHead();
      NoneBeforeHead(iter.Rest());
      savedKey := UserKey(iter.Key());
      iter.Next();
      iter.AtHead();
      if !iter.IsValid() {
        valid := false;
        savedKey := [];
        return;
      }
      FindNextUserEntry(true);
    }

    /** The lookup key is appended to what earlier calls left in `lookup_key_`. */
    method Seek(target: Bytes)
      requires Ready() && |target| + SEQ_SIZE < Radix(8)
      modifies this, iter.Repr
      ensures Valid() && fresh(iter.Repr - old(iter.Repr))
      ensures lookupKey == old(lookupKey) + LookupKey(target, snap) && LookupReadable(lookupKey)
      ensures Mergeable(iter.alls) && SeekShows(iter.Kinds(), iter.alls, lookupKey, snap, Pending())
      ensures old(lookupKey) == [] ==> Pending() == FromUser(Shows(iter.alls, snap), target)
    {
      hide Compare, Radix, SortedSeq, LookupReadable, FromCurrent, Union, Mergeable, LookupKey, View, SeekRests;
      hide FromUser, MergingIterator.Positioned, IsChoice;
      AppendLookup(lookupKey, target, snap);
      lookupKey := lookupKey + LookupKey(target, snap);
      iter.Seek(lookupKey);
      iter.AtHead();
      ghost var rests := iter.rests;
      ghost var seen := View(iter.Rest(), snap, NoSkip);
      if iter.IsValid() {
        FindNextUserEntry(false);
      } else {
        ViewOfNothing(snap, NoSkip);
        valid := false;
      }
      assert SeekRests(iter.Kinds(), iter.alls, lookupKey, rests) && seen == Shows(rests, snap);
      if old(lookupKey) == [] {
        assert lookupKey == LookupKey(target, snap);
        FirstSeekShowsSuffix(iter.Kinds(), iter.alls, rests, target, snap);
      }
    }
  }

  lemma ViewOfNothing(snap: nat, skip: Skip)
    ensures View([], snap, skip) == []
  {
  }

  /** What a reader of the sources `alls` sees at `snap`. */
  ghost function Shows(alls: seq<seq<Entry>>, snap: nat): seq<Entry>
    requires Mergeable(alls)
  {
    UnionDistinct(alls);
    Snapshot(Union(alls), snap)
  }

  /** `seen` is what is shown once every source has positioned itself by `lookup`. */
  ghost predicate SeekShows(kinds: seq<bool>, alls: seq<seq<Entry>>, lookup: Bytes, snap: nat, seen: seq<Entry>)
    requires LookupReadable(lookup)
  {
    exists rests :: SeekRests(kinds, alls, lookup, rests) && Mergeable(rests) && seen == Shows(rests, snap)
  }

  lemma AppendLookup(before: Bytes, target: Bytes, snap: nat)
    requires before == [] || LookupReadable(before)
    requires |target| + SEQ_SIZE < Radix(8)
    ensures LookupReadable(before + LookupKey(target, snap))
  {
    hide Radix, GetNumeric, PutNumeric;
    if before == [] {
      LookupParts(target, snap, []);
      assert before + LookupKey(target, snap) == LookupKey(target, snap) + [];
    } else {
      GetNumericPrefix(before, LookupKey(target, snap), LOOKUP_KEY_PREFIX_SIZE);
    }
  }

  /** With a lookup key that was built once, what is shown is the snapshot from `target` on,
      although memtables position by (key, sequence) and tables by user key only. */
  lemma FirstSeekShowsSuffix(kinds: seq<bool>, alls: seq<seq<Entry>>, rests: seq<seq<Entry>>, target: Bytes, snap: nat)
    requires |target| + SEQ_SIZE < Radix(8) && snap < Radix(8)
    requires Mergeable(alls) && Mergeable(rests)
    requires LookupReadable(LookupKey(target, snap)) && SeekRests(kinds, alls, LookupKey(target, snap), rests)
    ensures Shows(rests, snap) == FromUser(Shows(alls, snap), target)
  {
    hide Radix, Compare, InternalCompare, LookupKey, View, SeekRest, Sorted, FromUser, SortedSeq;
    UnionDistinct(alls);
    UnionDistinct(rests);
    forall e ensures Kept(e in Union(alls), e in Union(rests), target, snap, e) {
      if e in Union(alls) {
        var i :| 0 <= i < |alls| && e in alls[i];
        SourceKeeps(kinds[i], alls[i], rests[i], target, snap, e);
      }
      if e in Union(rests) {
        var i :| 0 <= i < |rests| && e in rests[i];
        SourceKeeps(kinds[i], alls[i], rests[i], target, snap, e);
      }
    }
    assert forall e :: Kept(e in Union(alls), e in Union(rests), target, snap, e);
    SeekShowsSuffix(Union(alls), Union(rests), target, snap);
  }

  /** A well-positioned source drops no version a reader from `target` on may see, and keeps none before `target`. */
  ghost predicate Kept(inAll: bool, inRest: bool, target: Bytes, snap: nat, e: Entry) {
    && (inRest ==> inAll && Compare(UserKey(e.key), target) >= 0)
    && (inAll && Compare(UserKey(e.key), target) > 0 ==> inRest)
    && (inAll && UserKey(e.key) == target && Sequence(e.key) <= snap ==> inRest)
  }

  /** How a version compares with (target, snap) in either reading of the lookup key. */
  lemma EitherReading(isMem: bool, target: Bytes, snap: nat, e: Entry)
    requires |target| + SEQ_SIZE < Radix(8) && snap < Radix(8)
    ensures LookupReadable(LookupKey(target, snap))
    ensures var lookup := LookupKey(target, snap);
      var r := if isMem then InternalCompare(e.key, LookupInternalKey(lookup))
               else Compare(UserKey(e.key), LookupUserKey(lookup));
      && (r < 0 ==> Compare(UserKey(e.key), target) <= 0 && !(UserKey(e.key) == target && Sequence(e.key) <= snap))
      && (r >= 0 ==> Compare(UserKey(e.key), target) >= 0)
  {
    hide Radix, Compare, LookupKey, GetNumeric, PutNumeric;
    LookupParts(target, snap, []);
    assert LookupKey(target, snap) + [] == LookupKey(target, snap);
    InternalKeyParts(target, snap);
    CompareReflects(UserKey(e.key), target);
  }

  lemma SourceKeeps(isMem: bool, all: seq<Entry>, rest: seq<Entry>, target: Bytes, snap: nat, e: Entry)
    requires |target| + SEQ_SIZE < Radix(8) && snap < Radix(8) && Sorted(all)
    requires LookupReadable(LookupKey(target, snap)) && SeekRest(isMem, all, LookupKey(target, snap), rest)
    ensures Kept(e in all, e in rest, target, snap, e)
  {
    hide Radix, Compare, LookupKey, LookupUserKey, LookupInternalKey, UserKey, Sequence, LookupReadable;
    var p := |all| - |rest|;
    if e in all {
      var k :| 0 <= k < |all| && all[k] == e;
      EitherReading(isMem, target, snap, e);
      if p <= k {
        EitherReading(isMem, target, snap, all[p]);
        assert e == rest[k - p];
        assert p < k ==> KeyLess(all[p].key, e.key);
        CompareReflects(UserKey(all[p].key), target);
        CompareReflects(UserKey(e.key), target);
        if p < k {
          CompareTransitive(target, UserKey(all[p].key), UserKey(e.key));
        }
      } else {
        assert e !in rest by {
          hide InternalCompare;
          if j :| 0 <= j < |rest| && rest[j] == e {
            assert KeyLess(all[k].key, all[p + j].key);
            InternalCompareReflects(e.key, e.key);
          }
        }
      }
    }
  }
}
