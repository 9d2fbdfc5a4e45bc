/** Cursors over one sorted source: a table made of blocks, and a memtable. */
module LsmTable {
  import opened Bytes
  import opened LsmKeys
  import opened LsmBlock

  /** An open table: block metadata, and the blocks that reading by index returns. */
  datatype Table = Table(blocks: seq<Block>, metas: seq<BlockMeta>)

  ghost function Flatten(parts: seq<seq<Entry>>): seq<Entry> {
    if parts == [] then [] else parts[0] + Flatten(parts[1..])
  }

  /** The position, in the whole table, of the first entry of block `i`. */
  ghost function Start(parts: seq<seq<Entry>>, i: nat): nat
    requires i <= |parts|
  {
    if i == 0 then 0 else |parts[0]| + Start(parts[1..], i - 1)
  }

  lemma {:induction false} FlattenAt(parts: seq<seq<Entry>>, i: nat)
    requires i < |parts|
    ensures Start(parts, i) + |parts[i]| == Start(parts, i + 1) <= |Flatten(parts)|
    ensures i == |parts| - 1 ==> Start(parts, i + 1) == |Flatten(parts)|
  {
    if i > 0 {
      FlattenAt(parts[1..], i - 1);
    } else if |parts| == 1 {
      assert Flatten(parts[1..]) == [];
    }
  }

  lemma {:induction false} FlattenElem(parts: seq<seq<Entry>>, i: nat, j: nat)
    requires i < |parts| && j < |parts[i]|
    ensures Start(parts, i) + j < |Flatten(parts)| && Flatten(parts)[Start(parts, i) + j] == parts[i][j]
  {
    if i > 0 {
      FlattenElem(parts[1..], i - 1, j);
    }
  }

  lemma {:induction false} StartMonotone(parts: seq<seq<Entry>>, i: nat, j: nat)
    requires i <= j <= |parts|
    ensures Start(parts, i) <= Start(parts, j)
  {
    if i < j {
      FlattenAt(parts, j - 1);
      StartMonotone(parts, i, j - 1);
    }
  }

  /** The block that contains position `k`. */
  lemma {:induction false} BlockOf(parts: seq<seq<Entry>>, k: nat) returns (i: nat)
    requires k < |Flatten(parts)|
    ensures i < |parts| && Start(parts, i) <= k < Start(parts, i + 1)
    ensures Start(parts, i + 1) - Start(parts, i) == |parts[i]|
    ensures Flatten(parts)[k] == parts[i][k - Start(parts, i)]
  {
    if k < |parts[0]| {
      i := 0;
    } else {
      var t := BlockOf(parts[1..], k - |parts[0]|);
      i := t + 1;
    }
  }

  /** The table's blocks hold `parts`, none of them empty, in ascending order overall. */
  ghost predicate TableHolds(t: Table, parts: seq<seq<Entry>>) {
    && 1 <= |parts| == |t.blocks| == |t.metas|
    && (forall i :: 0 <= i < |parts| ==>
          && parts[i] != []
          && Holds(t.blocks[i], Pairs(parts[i]))
          && t.metas[i].lastKey == parts[i][|parts[i]| - 1].key)
    && Sorted(Flatten(parts))
  }

  class TableIterator {
    const table: Table
    ghost const parts: seq<seq<Entry>>
    var blockIdx: nat
    var cursor: BlockIterator?

    ghost predicate Valid()
      reads this, cursor
    {
      && TableHolds(table, parts)
      && (cursor != null ==>
            && blockIdx < |parts|
            && cursor.Valid() && cursor.Positioned()
            && cursor.block == table.blocks[blockIdx] && cursor.entries == parts[blockIdx]
            && (cursor.index == |parts[blockIdx]| ==> blockIdx == |parts| - 1))
    }

    ghost function All(): seq<Entry> {
      Flatten(parts)
    }

    ghost function Repr(): set<object>
      reads this
    {
      {this} + if cursor == null then {} else {cursor}
    }

    /** The position in the whole table; its length when the cursor is exhausted. */
    ghost function Pos(): (p: nat)
      reads this, cursor
      requires Valid()
    {
      if cursor == null then |All()| else Start(parts, blockIdx) + cursor.index
    }

    constructor (table: Table, ghost parts: seq<seq<Entry>>)
      requires TableHolds(table, parts)
      ensures Valid() && fresh(Repr()) && this.table == table && this.parts == parts
      ensures !IsValid()
    {
      this.table, this.parts := table, parts;
      blockIdx, cursor := 0, null;
    }

    predicate IsValid()
      reads this, cursor
    {
      cursor != null && cursor.IsValid()
    }

    /** A valid cursor shows the entry at its position, an invalid one is at the end. */
    lemma AtPosition()
      requires Valid()
      ensures Pos() <= |All()|
      ensures IsValid() <==> Pos() < |All()|
      ensures IsValid() ==> cursor.key == All()[Pos()].key && cursor.value == All()[Pos()].value
    {
      if cursor != null {
        FlattenAt(parts, blockIdx);
        if cursor.index < |parts[blockIdx]| {
          FlattenElem(parts, blockIdx, cursor.index);
        }
      }
    }

    method SeekToFirst()
      requires Valid()
      modifies this
      ensures Valid() && Pos() == 0 && fresh(Repr() - {this})
    {
      blockIdx := 0;
      cursor := new BlockIterator(table.blocks[blockIdx], parts[blockIdx]);
      cursor.SeekToFirst();
    }

    method Next()
      requires Valid() && IsValid()
      modifies Repr()
      ensures Valid() && Pos() == old(Pos()) + 1 && fresh(Repr() - old(Repr()))
    {
      FlattenAt(parts, blockIdx);
      cursor.Next();
      if cursor.IsValid() {
      } else if blockIdx < |table.blocks| - 1 {
        blockIdx := blockIdx + 1;
        cursor := new BlockIterator(table.blocks[blockIdx], parts[blockIdx]);
        cursor.SeekToFirst();
      }
    }

    /** The first block whose last key is at or after `target`, found through the block metadata. */
    method FindBlock(target: Bytes) returns (b: nat)
      requires TableHolds(table, parts)
      ensures b <= |parts|
      ensures forall i :: 0 <= i < b ==> Compare(UserKey(LastKey(i)), target) < 0
      ensures b < |parts| ==> Compare(UserKey(LastKey(b)), target) >= 0
    {
      hide Compare, UserKey, Flatten, Sorted;
      b := 0;
      while b < |table.blocks|
        invariant 0 <= b <= |parts|
        invariant forall i :: 0 <= i < b ==> Compare(UserKey(LastKey(i)), target) < 0
      {
        assert table.metas[b].lastKey == LastKey(b);
        if Compare(UserKey(table.metas[b].lastKey), target) >= 0 {
          break;
        }
        b := b + 1;
      }
    }

    /** Stops at the first entry of the whole table with user key at or after `target`. */
    method Seek(target: Bytes)
      requires Valid()
      modifies this
      ensures Valid() && IsLowerBound(All(), target, Pos()) && fresh(Repr() - {this})
    {
      hide Compare, UserKey, Flatten, Start, Sorted;
      blockIdx := FindBlock(target);
      if blockIdx == |table.blocks| {
        cursor := null;
        FlattenAt(parts, blockIdx - 1);
        forall k | 0 <= k < |All()| ensures Compare(UserKey(All()[k].key), target) < 0 {
          BelowSkippedBlock(target, blockIdx, k);
        }
        return;
      }
      cursor := new BlockIterator(table.blocks[blockIdx], parts[blockIdx]);
      cursor.Seek(target);
      BlockSeekIsTableSeek(target, blockIdx, cursor.index);
    }

    /** The lower bound within the right block is the lower bound within the table. */
    lemma BlockSeekIsTableSeek(target: Bytes, b: nat, i: nat)
      requires TableHolds(table, parts) && b < |parts|
      requires forall j :: 0 <= j < b ==> Compare(UserKey(LastKey(j)), target) < 0
      requires Compare(UserKey(LastKey(b)), target) >= 0
      requires IsLowerBound(parts[b], target, i)
      ensures i < |parts[b]| && IsLowerBound(All(), target, Start(parts, b) + i)
    {
      hide Compare, UserKey, Flatten, Start, Sorted, Holds;
      assert i < |parts[b]|;
      FlattenElem(parts, b, i);
      var all := All();
      forall k | 0 <= k < Start(parts, b) + i ensures Compare(UserKey(all[k].key), target) < 0 {
        if k < Start(parts, b) {
          BelowSkippedBlock(target, b, k);
        } else {
          FlattenElem(parts, b, k - Start(parts, b));
        }
      }
    }

    ghost function LastKey(i: nat): InternalKey
      requires TableHolds(table, parts) && i < |parts|
    {
      parts[i][|parts[i]| - 1].key
    }

    /** Skipping a block by its last key skips only entries below the target. */
    lemma BelowSkippedBlock(target: Bytes, skipped: nat, k: nat)
      requires TableHolds(table, parts) && skipped <= |parts|
      requires forall i :: 0 <= i < skipped ==> Compare(UserKey(LastKey(i)), target) < 0
      requires k < |All()| && k < Start(parts, skipped)
      ensures Compare(UserKey(All()[k].key), target) < 0
    {
      hide Compare, Sequence, Flatten, Start;
      var i := BlockOf(parts, k);
      assert i < skipped by {
        if skipped <= i {
          StartMonotone(parts, skipped, i);
        }
      }
      FlattenElem(parts, i, |parts[i]| - 1);
      var last := Start(parts, i) + |parts[i]| - 1;
      if k < last {
        assert KeyLess(All()[k].key, All()[last].key);
        CompareTransitive(UserKey(All()[k].key), UserKey(LastKey(i)), target);
      }
    }
  }

  /** `i` is the first position of `es` whose internal key is at or after `target`. */
  ghost predicate IsInternalLowerBound(es: seq<Entry>, target: InternalKey, i: nat) {
    && i <= |es|
    && (forall j :: 0 <= j < i ==> InternalCompare(es[j].key, target) < 0)
    && (i < |es| ==> InternalCompare(es[i].key, target) >= 0)
  }

  /** A cursor over the memtable's sorted list; `node` at the length stands for the null node.
      The skip-list search is represented by what it is documented to return. */
  class MemIterator {
    const entries: seq<Entry>
    var node: nat

    ghost predicate Valid()
      reads this
    {
      Sorted(entries) && node <= |entries|
    }

    constructor (entries: seq<Entry>)
      requires Sorted(entries)
      ensures Valid() && this.entries == entries
    {
      this.entries := entries;
      node := |entries|;
    }

    predicate IsValid()
      reads this
    {
      node < |entries|
    }

    method SeekToFirst()
      requires Valid()
      modifies this
      ensures Valid() && node == 0
    {
      node := 0;
    }

    method Next()
      requires Valid() && IsValid()
      modifies this
      ensures Valid() && node == old(node) + 1
    {
      node := node + 1;
    }

    method Seek(target: InternalKey)
      requires Valid()
      modifies this
      ensures Valid() && IsInternalLowerBound(entries, target, node)
    {
      node := 0;
      while node < |entries| && InternalCompare(entries[node].key, target) < 0
        invariant node <= |entries|
        invariant forall j :: 0 <= j < node ==> InternalCompare(entries[j].key, target) < 0
      {
        node := node + 1;
      }
    }
  }
}
