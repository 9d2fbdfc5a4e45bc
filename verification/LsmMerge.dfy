/** The k-way merge over memtable and table cursors. */
module LsmMerge {
  import opened Bytes
  import opened LsmKeys
  import opened LsmBlock
  import opened LsmTable
  import opened LsmView

  // ----- merging, on values -----

  ghost function Union(rests: seq<seq<Entry>>): set<Entry> {
    set i, e | 0 <= i < |rests| && e in rests[i] :: e
  }

  ghost predicate NoSharedKey(a: seq<Entry>, b: seq<Entry>) {
    forall x, y :: x in a && y in b ==> x.key != y.key
  }

  /** Each list is sorted and no internal key occurs in two of them. */
  ghost predicate Mergeable(rests: seq<seq<Entry>>) {
    && (forall i :: 0 <= i < |rests| ==> Sorted(rests[i]))
    && (forall i, j :: 0 <= i < |rests| && 0 <= j < |rests| && i != j ==> NoSharedKey(rests[i], rests[j]))
  }

  lemma SortedDistinct(es: seq<Entry>, a: Entry, b: Entry)
    requires Sorted(es) && a in es && b in es && a.key == b.key
    ensures a == b
  {
    hide InternalCompare;
    InternalCompareReflects(a.key, b.key);
  }

  lemma UnionDistinct(rests: seq<seq<Entry>>)
    requires Mergeable(rests)
    ensures DistinctKeys(Union(rests))
  {
    hide Sorted;
    forall a, b | a in Union(rests) && b in Union(rests) && a.key == b.key ensures a == b {
      var i :| 0 <= i < |rests| && a in rests[i];
      var j :| 0 <= j < |rests| && b in rests[j];
      assert i != j ==> NoSharedKey(rests[i], rests[j]);
      SortedDistinct(rests[i], a, b);
    }
  }

  /** Dropping a prefix of each list keeps them mergeable. */
  lemma SuffixesMergeable(alls: seq<seq<Entry>>, rests: seq<seq<Entry>>)
    requires Mergeable(alls) && |rests| == |alls|
    requires forall i :: 0 <= i < |alls| ==> |rests[i]| <= |alls[i]| && rests[i] == alls[i][|alls[i]| - |rests[i]|..]
    ensures Mergeable(rests)
    ensures Union(rests) <= Union(alls)
  {
    hide KeyLess;
    forall i | 0 <= i < |alls| ensures Sorted(rests[i]) && forall e :: e in rests[i] ==> e in alls[i] {
    }
    forall i, j | 0 <= i < |rests| && 0 <= j < |rests| && i != j ensures NoSharedKey(rests[i], rests[j]) {
      assert NoSharedKey(alls[i], alls[j]);
    }
  }

  /** List `i` is non-empty and has the smallest head among the first `n` lists. */
  ghost predicate SmallestBelow(rests: seq<seq<Entry>>, i: nat, n: nat)
    requires n <= |rests|
  {
    && i < n && rests[i] != []
    && forall j :: 0 <= j < n && rests[j] != [] ==> InternalCompare(rests[i][0].key, rests[j][0].key) <= 0
  }

  lemma NewSmallest(rests: seq<seq<Entry>>, best: nat, i: nat)
    requires i < |rests| && rests[i] != [] && SmallestBelow(rests, best, i)
    requires InternalCompare(rests[i][0].key, rests[best][0].key) < 0
    ensures SmallestBelow(rests, i, i + 1)
  {
    hide InternalCompare;
    InternalCompareReflects(rests[i][0].key, rests[i][0].key);
    forall j | 0 <= j < i && rests[j] != [] ensures InternalCompare(rests[i][0].key, rests[j][0].key) <= 0 {
      InternalCompareTransitive(rests[i][0].key, rests[best][0].key, rests[j][0].key);
    }
  }

  datatype Choice = Nothing | Child(index: nat)

  /** `c` names a list with the smallest head, or nothing when all lists are empty. */
  ghost predicate IsChoice(rests: seq<seq<Entry>>, c: Choice) {
    match c
    case Nothing => forall i :: 0 <= i < |rests| ==> rests[i] == []
    case Child(i) => SmallestBelow(rests, i, |rests|)
  }

  /** The smallest head is the least of all remaining entries. */
  lemma SmallestIsLeast(rests: seq<seq<Entry>>, i: nat)
    requires Mergeable(rests) && SmallestBelow(rests, i, |rests|)
    ensures IsLeast(rests[i][0], Union(rests))
  {
    hide InternalCompare, Sorted;
    var head := rests[i][0];
    assert head in rests[i] && head in Union(rests);
    forall o | o in Union(rests) && o != head ensures KeyLess(head.key, o.key) {
      var j :| 0 <= j < |rests| && o in rests[j];
      SortedTail(rests[j]);
      if o != rests[j][0] {
        InternalCompareTransitive(head.key, rests[j][0].key, o.key);
      } else {
        assert NoSharedKey(rests[i], rests[j]);
        InternalCompareReflects(head.key, o.key);
      }
    }
  }

  /** Taking the head of one list removes exactly that entry from what remains. */
  lemma TakeHead(rests: seq<seq<Entry>>, i: nat)
    requires Mergeable(rests) && i < |rests| && rests[i] != []
    ensures Union(rests[i := rests[i][1..]]) == Union(rests) - {rests[i][0]}
    ensures Mergeable(rests[i := rests[i][1..]])
  {
    hide Sorted;
    var head, after := rests[i][0], rests[i := rests[i][1..]];
    SortedTail(rests[i]);
    forall j | 0 <= j < |rests| ensures forall e :: e in after[j] <==> e in rests[j] && e != head {
      if j != i {
        assert NoSharedKey(rests[i], rests[j]);
      }
    }
    forall j, k | 0 <= j < |rests| && 0 <= k < |rests| && j != k ensures NoSharedKey(after[j], after[k]) {
      assert NoSharedKey(rests[j], rests[k]);
    }
    forall e ensures e in Union(after) <==> e in Union(rests) - {head} {
      if e in Union(rests) - {head} {
        var j :| 0 <= j < |rests| && e in rests[j];
        assert e in after[j];
      }
      if e in Union(after) {
        var j :| 0 <= j < |rests| && e in after[j];
        assert e in rests[j];
      }
    }
  }

  /** `rest` is what a source with contents `all` keeps when it seeks to `lookup`:
      a memtable positions by internal key, a table by user key. */
  ghost predicate SeekRest(isMem: bool, all: seq<Entry>, lookup: Bytes, rest: seq<Entry>)
    requires LookupReadable(lookup)
  {
    && |rest| <= |all|
    && rest == all[|all| - |rest|..]
    && if isMem then IsInternalLowerBound(all, LookupInternalKey(lookup), |all| - |rest|)
       else IsLowerBound(all, LookupUserKey(lookup), |all| - |rest|)
  }

  ghost predicate SeekRests(kinds: seq<bool>, alls: seq<seq<Entry>>, lookup: Bytes, rests: seq<seq<Entry>>)
    requires LookupReadable(lookup)
  {
    && |rests| == |alls| == |kinds|
    && forall i :: 0 <= i < |kinds| ==> SeekRest(kinds[i], alls[i], lookup, rests[i])
  }

  lemma SeekMergeable(kinds: seq<bool>, alls: seq<seq<Entry>>, lookup: Bytes, rests: seq<seq<Entry>>)
    requires LookupReadable(lookup) && Mergeable(alls) && SeekRests(kinds, alls, lookup, rests)
    ensures Mergeable(rests)
  {
    hide Mergeable, IsLowerBound, IsInternalLowerBound;
    SuffixesMergeable(alls, rests);
  }

  // ----- one source -----

  datatype Source = Mem(mem: MemIterator) | Tab(tab: TableIterator) {

    ghost function Base(): set<object> {
      if Mem? then {mem} else {tab}
    }

    ghost function Repr(): (r: set<object>)
      reads Base()
      ensures Base() <= r
    {
      if Mem? then {mem} else tab.Repr()
    }

    ghost predicate Valid()
      reads Base(), Repr()
    {
      if Mem? then mem.Valid() else tab.Valid()
    }

    ghost function All(): seq<Entry> {
      if Mem? then mem.entries else tab.All()
    }

    ghost function Pos(): (p: nat)
      reads Base(), Repr()
      requires Valid()
      ensures p <= |All()|
    {
      if Mem? then mem.node else tab.AtPosition(); tab.Pos()
    }

    ghost function Rest(): seq<Entry>
      reads Base(), Repr()
      requires Valid()
    {
      All()[Pos()..]
    }

    predicate IsValid()
      reads Base(), Repr()
      requires Valid()
      ensures IsValid() <==> Rest() != []
    {
      if Mem? then mem.IsValid() else tab.AtPosition(); tab.IsValid()
    }

    function Key(): (k: InternalKey)
      reads Base(), Repr()
      requires Valid() && IsValid()
      ensures k == Rest()[0].key
    {
      if Mem? then mem.entries[mem.node].key else tab.AtPosition(); tab.cursor.key
    }

    function Value(): (v: Bytes)
      reads Base(), Repr()
      requires Valid() && IsValid()
      ensures v == Rest()[0].value
    {
      if Mem? then mem.entries[mem.node].value else tab.AtPosition(); tab.cursor.value
    }

    method SeekToFirst()
      requires Valid()
      modifies Repr()
      ensures Valid() && Rest() == All() && fresh(Repr() - old(Repr()))
    {
      match this
      case Mem(m) => m.SeekToFirst();
      case Tab(t) => t.SeekToFirst();
    }

    method Next()
      requires Valid() && IsValid()
      modifies Repr()
      ensures Valid() && Rest() == old(Rest())[1..] && fresh(Repr() - old(Repr()))
    {
      hide TableHolds, Flatten, Start, Sorted, Holds;
      match this
      case Mem(m) => m.Next();
      case Tab(t) => t.AtPosition(); t.Next(); t.AtPosition();
    }

    method Seek(lookup: Bytes)
      requires Valid() && LookupReadable(lookup)
      modifies Repr()
      ensures Valid() && SeekRest(Mem?, All(), lookup, Rest()) && fresh(Repr() - old(Repr()))
    {
      match this
      case Mem(m) => m.Seek(LookupInternalKey(lookup));
      case Tab(t) => t.Seek(LookupUserKey(lookup));
    }
  }

  /** Taking the smallest head takes the first of the merged order. */
  lemma MergeStep(rests: seq<seq<Entry>>, i: nat)
    requires Mergeable(rests) && SmallestBelow(rests, i, |rests|)
    ensures DistinctKeys(Union(rests)) && Mergeable(rests[i := rests[i][1..]])
    ensures DistinctKeys(Union(rests[i := rests[i][1..]]))
    ensures SortedSeq(Union(rests)) == [rests[i][0]] + SortedSeq(Union(rests[i := rests[i][1..]]))
  {
    hide Mergeable, Union, SortedSeq, InternalCompare;
    SmallestIsLeast(rests, i);
    UnionDistinct(rests);
    SortedSeqStep(Union(rests), rests[i][0]);
    TakeHead(rests, i);
  }

  // ----- the merging iterator -----

  class MergingIterator {
    const children: seq<Source>
    ghost const alls: seq<seq<Entry>>  // the contents of the children
    var current: Choice
    ghost var rests: seq<seq<Entry>>   // what each child still has to give
    ghost var Repr: set<object>

    /** The children are positioned later, by a seek. */
    constructor (children: seq<Source>, ghost alls: seq<seq<Entry>>, ghost repr: set<object>)
      requires |alls| == |children| && Mergeable(alls)
      requires forall i :: 0 <= i < |children| ==> children[i].Valid() && children[i].All() == alls[i]
      requires forall i :: 0 <= i < |children| ==> children[i].Repr() <= repr
      requires forall i, j :: 0 <= i < j < |children| ==> children[i].Repr() !! children[j].Repr()
      ensures ChildrenValid() && current == Nothing
      ensures this.children == children && this.alls == alls && fresh(Repr - repr)
    {
      this.children, this.alls, current := children, alls, Nothing;
      rests, Repr := alls, {this} + repr;
      new;
      hide Source.Valid, Source.Repr, Source.All, Source.Base, Mergeable;
    }

    /** Which children are memtables. */
    ghost function Kinds(): seq<bool> {
      seq(|children|, i requires 0 <= i < |children| => children[i].Mem?)
    }

    ghost predicate ChildrenValid()
      reads this, Repr
    {
      && this in Repr
      && |alls| == |children| == |rests|
      && (forall i :: 0 <= i < |children| ==> children[i].Base() <= Repr)
      && (forall i :: 0 <= i < |children| ==> children[i].Repr() <= Repr && this !in children[i].Repr())
      && (forall i :: 0 <= i < |children| ==> children[i].Valid() && children[i].All() == alls[i])
      && (forall i, j :: 0 <= i < j < |children| ==> children[i].Repr() !! children[j].Repr())
      && Mergeable(alls)
    }

    ghost predicate Positioned()
      reads this, Repr
      requires ChildrenValid()
    {
      forall i :: 0 <= i < |children| ==> children[i].Rest() == rests[i]
    }

    ghost predicate Valid()
      reads this, Repr
    {
      ChildrenValid() && Positioned() && Mergeable(rests) && IsChoice(rests, current)
    }

    /** What the iterator still has to give, current entry first. */
    ghost function Rest(): seq<Entry>
      reads this
      requires Mergeable(rests)
    {
      UnionDistinct(rests);
      SortedSeq(Union(rests))
    }

    predicate IsValid()
      reads this
    {
      current != Nothing
    }

    /** The current child's entry is the first of the merged order. */
    lemma AtHead()
      requires Valid()
      ensures IsValid() <==> Rest() != []
      ensures IsValid() ==> Rest()[0] == rests[current.index][0]
    {
      hide InternalCompare, Sorted;
      UnionDistinct(rests);
      if IsValid() {
        var i := current.index;
        SmallestIsLeast(rests, i);
        SortedSeqStep(Union(rests), rests[i][0]);
      } else {
        assert Union(rests) == {};
      }
    }

    function Key(): (k: InternalKey)
      reads this, Repr
      requires Valid() && IsValid()
      ensures Rest() != [] && k == Rest()[0].key
    {
      AtHead();
      children[current.index].Key()
    }

    function Value(): (v: Bytes)
      reads this, Repr
      requires Valid() && IsValid()
      ensures Rest() != [] && v == Rest()[0].value
    {
      AtHead();
      children[current.index].Value()
    }

    /** The scan of `find_smallest`. */
    method Smallest() returns (smallest: Choice)
      requires ChildrenValid() && Positioned()
      ensures IsChoice(rests, smallest)
    {
      hide InternalCompare, Mergeable, Sorted, Source.Valid, Source.Repr, Source.Rest, Source.Pos, Source.All, Source.Base;
      smallest := Nothing;
      for i := 0 to |children|
        invariant smallest == Nothing ==> forall j :: 0 <= j < i ==> rests[j] == []
        invariant smallest.Child? ==> SmallestBelow(rests, smallest.index, i)
      {
        if children[i].IsValid() {
          if smallest == Nothing {
            InternalCompareReflects(rests[i][0].key, rests[i][0].key);
            smallest := Child(i);
          } else {
            if InternalCompare(children[i].Key(), children[smallest.index].Key()) < 0 {
              NewSmallest(rests, smallest.index, i);
              smallest := Child(i);
            } else {
              InternalCompareReflects(rests[i][0].key, rests[smallest.index][0].key);
            }
          }
        }
      }
    }

    method FindSmallest()
      requires ChildrenValid() && Positioned() && Mergeable(rests)
      modifies this`current
      ensures Valid()
    {
      hide Mergeable, IsChoice, Source.Valid, Source.Repr, Source.Rest, Source.Pos, Source.All, Source.Base;
      current := Smallest();
    }

    /** After only child `i` moved, the other children are as before and still disjoint from it. */
    twostate lemma ChildMoved(i: nat)
      requires old(ChildrenValid()) && i < |children|
      requires forall o :: o in old(Repr) && o !in old(children[i].Repr()) && o != this ==> unchanged(o)
      requires fresh(children[i].Repr() - old(children[i].Repr()))
      requires children[i].Valid()
      requires Repr == old(Repr) + children[i].Repr() && rests == old(rests)
      ensures ChildrenValid()
      ensures forall j :: 0 <= j < |children| && j != i ==> children[j].Rest() == old(children[j].Rest())
    {
      hide Source.Valid, Source.Repr, Source.Rest, Source.Pos, Source.All, Source.Base, Mergeable;
      forall j | 0 <= j < |children| && j != i
        ensures children[j].Repr() == old(children[j].Repr())
        ensures children[j].Valid() && children[j].Rest() == old(children[j].Rest())
      {
        assert j < i || i < j;
        assert forall o :: o in old(children[j].Repr()) ==> unchanged(o);
      }
    }

    method MoveChild(i: nat)
      requires ChildrenValid() && i < |children| && children[i].IsValid()
      modifies Repr
      ensures ChildrenValid() && rests == old(rests) && fresh(Repr - old(Repr))
      ensures children[i].Rest() == old(children[i].Rest())[1..]
      ensures forall j :: 0 <= j < |children| && j != i ==> children[j].Rest() == old(children[j].Rest())
    {
      hide Source.Valid, Source.Repr, Source.Rest, Source.Pos, Source.All, Source.Base, Mergeable;
      children[i].Next();
      Repr := Repr + children[i].Repr();
      ChildMoved(i);
    }

    method Next()
      requires Valid() && IsValid()
      modifies Repr
      ensures old(Rest()) != []
      ensures Valid() && Rest() == old(Rest())[1..]
      ensures fresh(Repr - old(Repr))
    {
      hide Source.Valid, Source.Repr, Source.Rest, Source.Pos, Source.All, Source.Base, InternalCompare, Sorted;
      hide Mergeable, Union, SortedSeq;
      var i := current.index;
      MergeStep(rests, i);
      MoveChild(i);
      rests := rests[i := rests[i][1..]];
      assert ChildrenValid() && Positioned();
      FindSmallest();
    }

    method SeekToFirst()
      requires ChildrenValid()
      modifies Repr
      ensures Valid() && fresh(Repr - old(Repr))
      ensures rests == alls
    {
      hide Source.Valid, Source.Repr, Source.Rest, Source.Pos, Source.All, Source.Base, Mergeable;
      for i := 0 to |children|
        invariant ChildrenValid() && fresh(Repr - old(Repr)) && rests == old(rests)
        invariant forall j :: 0 <= j < i ==> children[j].Rest() == alls[j]
      {
        label before:
        children[i].SeekToFirst();
        Repr := Repr + children[i].Repr();
        ChildMoved@before(i);
      }
      rests := alls;
      FindSmallest();
    }

    /** Every child positions itself by its own reading of the lookup key. */
    method Seek(lookup: Bytes)
      requires ChildrenValid() && LookupReadable(lookup)
      modifies Repr
      ensures Valid() && fresh(Repr - old(Repr))
      ensures SeekRests(Kinds(), alls, lookup, rests)
    {
      hide Source.Valid, Source.Repr, Source.Rest, Source.Pos, Source.All, Source.Base, Mergeable, SeekRest;
      ghost var found: seq<seq<Entry>> := [];
      for i := 0 to |children|
        invariant ChildrenValid() && fresh(Repr - old(Repr)) && rests == old(rests)
        invariant |found| == i && forall j :: 0 <= j < i ==>
          children[j].Rest() == found[j] && SeekRest(children[j].Mem?, alls[j], lookup, found[j])
      {
        label before:
        children[i].Seek(lookup);
        Repr := Repr + children[i].Repr();
        ChildMoved@before(i);
        found := found + [children[i].Rest()];
      }
      rests := found;
      SeekMergeable(Kinds(), alls, lookup, rests);
      FindSmallest();
    }
  }
}
