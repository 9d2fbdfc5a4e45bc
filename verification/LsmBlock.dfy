/** Data blocks: the byte layout written by the block builder and the cursor that reads it back. */
module LsmBlock {
  import opened Common
  import opened Bytes
  import opened LsmKeys

  const BLOCK_SIZE := 4096

  datatype Pair = Pair(key: Bytes, value: Bytes)

  /** Entry bytes and the offset at which each entry begins. */
  datatype Block = Block(data: Bytes, offsets: seq<nat>)

  // ----- length-prefixed strings and entries -----

  function PutPrefixed(k: Bytes): Bytes {
    PutNumeric(|k|, 4) + k
  }

  predicate HasPrefixed(s: Bytes) {
    |s| >= 4 && 4 + GetNumeric(s, 4) <= |s|
  }

  function GetPrefixed(s: Bytes): Bytes
    requires HasPrefixed(s)
  {
    s[4..4 + GetNumeric(s, 4)]
  }

  function AfterPrefixed(s: Bytes): Bytes
    requires HasPrefixed(s)
  {
    s[4 + GetNumeric(s, 4)..]
  }

  /** The length field is four bytes wide, so strings of 2^32 bytes or more do not read back. */
  lemma PrefixedRoundTrip(k: Bytes, rest: Bytes)
    requires |k| < 0x1_0000_0000
    ensures var s := PutPrefixed(k) + rest;
      HasPrefixed(s) && GetPrefixed(s) == k && AfterPrefixed(s) == rest
  {
    Radix4();
    assert PutPrefixed(k) + rest == PutNumeric(|k|, 4) + (k + rest);
    GetAfterPut(|k|, 4, k + rest);
  }

  function EncodeEntry(p: Pair): Bytes {
    PutPrefixed(p.key) + PutPrefixed(p.value)
  }

  predicate Parseable(e: Bytes) {
    HasPrefixed(e) && HasPrefixed(AfterPrefixed(e))
  }

  /** `parse_entry`. */
  function ParseEntry(e: Bytes): Pair
    requires Parseable(e)
  {
    Pair(GetPrefixed(e), GetPrefixed(AfterPrefixed(e)))
  }

  predicate Fits(p: Pair) {
    |p.key| < 0x1_0000_0000 && |p.value| < 0x1_0000_0000
  }

  lemma ParseUndoesEncode(p: Pair)
    requires Fits(p)
    ensures Parseable(EncodeEntry(p)) && ParseEntry(EncodeEntry(p)) == p
  {
    PrefixedRoundTrip(p.key, PutPrefixed(p.value));
    PrefixedRoundTrip(p.value, []);
    assert PutPrefixed(p.value) + [] == PutPrefixed(p.value);
  }

  // ----- a block -----

  function EntryBegin(b: Block, i: nat): nat
    requires i < |b.offsets|
  {
    b.offsets[i]
  }

  function EntryEnd(b: Block, i: nat): nat
    requires i < |b.offsets|
  {
    if i == |b.offsets| - 1 then |b.data| else b.offsets[i + 1]
  }

  /** The block is the encoding of `pairs`, entry by entry. */
  ghost predicate Holds(b: Block, pairs: seq<Pair>) {
    && |b.offsets| == |pairs|
    && forall i :: 0 <= i < |pairs| ==>
         && EntryBegin(b, i) <= EntryEnd(b, i) <= |b.data|
         && b.data[EntryBegin(b, i)..EntryEnd(b, i)] == EncodeEntry(pairs[i])
         && Fits(pairs[i])
  }

  /** `get_entry`. */
  function GetEntry(b: Block, i: nat): Bytes
    requires i < |b.offsets| && EntryBegin(b, i) <= EntryEnd(b, i) <= |b.data|
  {
    b.data[EntryBegin(b, i)..EntryEnd(b, i)]
  }

  /** Every entry of a block reads back as the pair that was added. */
  lemma ReadBack(b: Block, pairs: seq<Pair>, i: nat)
    requires Holds(b, pairs) && i < |pairs|
    ensures Parseable(GetEntry(b, i)) && ParseEntry(GetEntry(b, i)) == pairs[i]
  {
    ParseUndoesEncode(pairs[i]);
  }

  // ----- the finished layout -----

  function PutOffsets(offsets: seq<nat>): (s: Bytes)
    ensures |s| == 4 * |offsets|
  {
    if offsets == [] then [] else PutOffsets(offsets[..|offsets| - 1]) + PutNumeric(offsets[|offsets| - 1], 4)
  }

  /** Entries, number of offsets, offsets, start of the offset section. */
  function FinishedBytes(b: Block): Bytes {
    b.data + PutNumeric(|b.offsets|, 4) + PutOffsets(b.offsets) + PutNumeric(|b.data|, 4)
  }

  predicate LayoutReadable(s: Bytes) {
    && |s| >= 8
    && var start := GetNumeric(s[|s| - 4..], 4);
       start + 8 <= |s| && |s| == start + 8 + 4 * GetNumeric(s[start..], 4)
  }

  /** Reads the layout back, starting from the last field, as the layout diagram prescribes. */
  function ReadLayout(s: Bytes): Block
    requires LayoutReadable(s)
  {
    var start := GetNumeric(s[|s| - 4..], 4);
    var n := GetNumeric(s[start..], 4);
    Block(s[..start], seq(n, i requires 0 <= i < n => GetNumeric(s[start + 4 + 4 * i..], 4)))
  }

  lemma {:induction false} OffsetAt(offsets: seq<nat>, rest: Bytes, i: nat)
    requires i < |offsets|
    requires forall j :: 0 <= j < |offsets| ==> offsets[j] < 0x1_0000_0000
    ensures GetNumeric((PutOffsets(offsets) + rest)[4 * i..], 4) == offsets[i]
  {
    var n := |offsets| - 1;
    var init, last := offsets[..n], PutNumeric(offsets[n], 4);
    assert PutOffsets(offsets) + rest == PutOffsets(init) + (last + rest);
    if i == n {
      Radix4();
      assert (PutOffsets(init) + (last + rest))[4 * n..] == last + rest;
      GetAfterPut(offsets[n], 4, rest);
    } else {
      OffsetAt(init, last + rest, i);
    }
  }

  /** A finished block can be read back from its bytes alone. */
  lemma LayoutRoundTrip(b: Block)
    requires |b.data| < 0x1_0000_0000 && |b.offsets| < 0x1_0000_0000
    requires forall j :: 0 <= j < |b.offsets| ==> b.offsets[j] < 0x1_0000_0000
    ensures LayoutReadable(FinishedBytes(b)) && ReadLayout(FinishedBytes(b)) == b
  {
    hide Radix, GetNumeric, PutNumeric, PutOffsets;
    Radix4();
    var s := FinishedBytes(b);
    var trailer := PutNumeric(|b.data|, 4);
    var n := |b.offsets|;
    assert s[|s| - 4..] == trailer + [];
    GetAfterPut(|b.data|, 4, []);
    assert s[|b.data|..] == PutNumeric(n, 4) + (PutOffsets(b.offsets) + trailer);
    GetAfterPut(n, 4, PutOffsets(b.offsets) + trailer);
    assert s[..|b.data|] == b.data;
    forall i | 0 <= i < n ensures GetNumeric(s[|b.data| + 4 + 4 * i..], 4) == b.offsets[i] {
      OffsetAt(b.offsets, trailer, i);
      assert s[|b.data| + 4 + 4 * i..] == (PutOffsets(b.offsets) + trailer)[4 * i..];
    }
    assert ReadLayout(s).offsets == b.offsets;
  }

  // ----- the builder -----

  class BlockBuilder {
    var offsets: seq<nat>
    var data: Bytes
    ghost var added: seq<Pair>  // the pairs accepted since the last reset

    ghost predicate Valid()
      reads this
    {
      && Holds(Block(data, offsets), added)
      && ApproSize() <= BLOCK_SIZE + 4
    }

    function ApproSize(): nat
      reads this
    {
      |data| + |offsets| * 4
    }

    constructor ()
      ensures Valid() && added == [] && data == [] && offsets == []
    {
      offsets, data, added := [], [], [];
    }

    method Reset()
      modifies this
      ensures Valid() && added == [] && data == [] && offsets == []
    {
      offsets, data, added := [], [], [];
    }

    method Add(key: Bytes, value: Bytes) returns (rc: RC)
      requires Valid()
      modifies this
      ensures Valid()
      ensures rc == SUCCESS <==> old(ApproSize()) + |key| + |value| + 8 <= BLOCK_SIZE
      ensures rc != SUCCESS ==> rc == if old(added) == [] then UNIMPLEMENTED else FULL
      ensures rc == SUCCESS ==>
        && added == old(added) + [Pair(key, value)]
        && data == old(data) + EncodeEntry(Pair(key, value))
        && offsets == old(offsets) + [|old(data)|]
      ensures rc != SUCCESS ==> unchanged(this)
    {
      if ApproSize() + |key| + |value| + 8 > BLOCK_SIZE {
        if offsets == [] {
          return UNIMPLEMENTED;
        }
        return FULL;
      }
      ghost var before := Block(data, offsets);
      offsets := offsets + [|data|];
      data := data + PutNumeric(|key|, 4);
      data := data + key;
      data := data + PutNumeric(|value|, 4);
      data := data + value;
      assert data == before.data + EncodeEntry(Pair(key, value));
      HoldsAppend(before, added, Pair(key, value), Block(data, offsets));
      added := added + [Pair(key, value)];
      return SUCCESS;
    }

    method LastKey() returns (key: Bytes)
      requires Valid() && added != []
      ensures key == added[|added| - 1].key
    {
      ghost var n := |added| - 1;
      assert EntryBegin(Block(data, offsets), n) <= |data|;
      var last := data[offsets[|offsets| - 1]..];
      assert last == GetEntry(Block(data, offsets), n);
      ReadBack(Block(data, offsets), added, n);
      var keySize := GetNumeric(last, 4);
      key := last[4..4 + keySize];
    }

    /** Appends the offset section. The builder holds pairs again only after `Reset`. */
    method Finish() returns (bytes: Bytes)
      requires Valid()
      modifies this
      ensures bytes == data && offsets == old(offsets) && added == old(added)
      ensures |bytes| == old(ApproSize()) + 8 <= BLOCK_SIZE + 12
      ensures LayoutReadable(bytes) && Holds(ReadLayout(bytes), old(added))
    {
      ghost var block := Block(data, offsets);
      var dataSize := |data|;
      data := data + PutNumeric(|offsets|, 4);
      var i := 0;
      while i < |offsets|
        invariant 0 <= i <= |offsets| && offsets == old(offsets) && added == old(added)
        invariant data == block.data + PutNumeric(|offsets|, 4) + PutOffsets(offsets[..i])
      {
        assert offsets[..i + 1][..i] == offsets[..i];
        data := data + PutNumeric(offsets[i], 4);
        i := i + 1;
      }
      data := data + PutNumeric(dataSize, 4);
      assert offsets[..i] == offsets;
      assert data == FinishedBytes(block);
      forall j | 0 <= j < |offsets| ensures offsets[j] <= |block.data| {
        assert EntryBegin(block, j) <= EntryEnd(block, j);
      }
      LayoutRoundTrip(block);
      bytes := data;
    }
  }

  lemma HoldsAppend(b: Block, pairs: seq<Pair>, p: Pair, grown: Block)
    requires Holds(b, pairs) && Fits(p)
    requires grown == Block(b.data + EncodeEntry(p), b.offsets + [|b.data|])
    ensures Holds(grown, pairs + [p])
  {
    forall i | 0 <= i < |pairs| + 1
      ensures EntryBegin(grown, i) <= EntryEnd(grown, i) <= |grown.data|
      ensures grown.data[EntryBegin(grown, i)..EntryEnd(grown, i)] == EncodeEntry((pairs + [p])[i])
      ensures Fits((pairs + [p])[i])
    {
      if i < |pairs| {
        assert EntryEnd(grown, i) == EntryEnd(b, i);
        assert grown.data[..|b.data|] == b.data;
        assert GetEntry(b, i) == EncodeEntry(pairs[i]);
      }
    }
  }

  /** The size bound is reached: one pair of 4088 bytes makes a block of exactly BLOCK_SIZE + 12. */
  method LargestBlock(value: Bytes) returns (rc: RC, bytes: Bytes)
    requires |value| == 4080
    ensures rc == SUCCESS && |bytes| == BLOCK_SIZE + 12
  {
    var b := new BlockBuilder();
    rc := b.Add(value[..8], value);
    bytes := b.Finish();
  }

  // ----- block metadata -----

  datatype BlockMeta = BlockMeta(firstKey: Bytes, lastKey: Bytes, offset: nat, size: nat)

  function EncodeMeta(m: BlockMeta): Bytes {
    PutPrefixed(m.firstKey) + PutPrefixed(m.lastKey) + PutNumeric(m.offset, 4) + PutNumeric(m.size, 4)
  }

  predicate MetaReadable(s: Bytes) {
    Parseable(s) && |AfterPrefixed(AfterPrefixed(s))| >= 8
  }

  function DecodeMeta(s: Bytes): BlockMeta
    requires MetaReadable(s)
  {
    var afterFirst := AfterPrefixed(s);
    var afterLast := AfterPrefixed(afterFirst);
    BlockMeta(GetPrefixed(s), GetPrefixed(afterFirst), GetNumeric(afterLast, 4), GetNumeric(afterLast[4..], 4))
  }

  lemma MetaRoundTrip(m: BlockMeta)
    requires |m.firstKey| < 0x1_0000_0000 && |m.lastKey| < 0x1_0000_0000
    requires m.offset < 0x1_0000_0000 && m.size < 0x1_0000_0000
    ensures MetaReadable(EncodeMeta(m)) && DecodeMeta(EncodeMeta(m)) == m
  {
    var numbers := PutNumeric(m.offset, 4) + PutNumeric(m.size, 4);
    assert EncodeMeta(m) == PutPrefixed(m.firstKey) + (PutPrefixed(m.lastKey) + numbers);
    PrefixedRoundTrip(m.firstKey, PutPrefixed(m.lastKey) + numbers);
    PrefixedRoundTrip(m.lastKey, numbers);
    Radix4();
    GetAfterPut(m.offset, 4, PutNumeric(m.size, 4));
    assert numbers[4..] == PutNumeric(m.size, 4) + [];
    GetAfterPut(m.size, 4, []);
  }

  // ----- the block cursor -----

  function Pairs(es: seq<Entry>): seq<Pair> {
    seq(|es|, i requires 0 <= i < |es| => Pair(es[i].key, es[i].value))
  }

  /** `i` is the first position of `es` whose user key is at or after `target`. */
  ghost predicate IsLowerBound(es: seq<Entry>, target: Bytes, i: nat) {
    && i <= |es|
    && (forall j :: 0 <= j < i ==> Compare(UserKey(es[j].key), target) < 0)
    && (i < |es| ==> Compare(UserKey(es[i].key), target) >= 0)
  }

  class BlockIterator {
    const block: Block
    ghost const entries: seq<Entry>  // what the block holds
    var index: nat
    var key: Bytes
    var value: Bytes

    ghost predicate Valid()
      reads this
    {
      Holds(block, Pairs(entries)) && index <= |entries|
    }

    /** `key` and `value` are those of the current entry. */
    ghost predicate Positioned()
      reads this
    {
      index < |entries| ==> key == entries[index].key && value == entries[index].value
    }

    constructor (block: Block, ghost entries: seq<Entry>)
      requires Holds(block, Pairs(entries))
      ensures Valid() && this.block == block && this.entries == entries
    {
      this.block, this.entries := block, entries;
      index, key, value := 0, [], [];
    }

    predicate IsValid()
      reads this
    {
      index < |block.offsets|
    }

    method Parse()
      requires Valid() && index < |entries|
      modifies this`key, this`value
      ensures Valid() && Positioned()
    {
      ReadBack(block, Pairs(entries), index);
      var p := ParseEntry(GetEntry(block, index));
      key, value := p.key, p.value;
    }

    method SeekToFirst()
      requires Valid() && entries != []
      modifies this
      ensures Valid() && Positioned() && index == 0
    {
      index := 0;
      Parse();
    }

    method Next()
      requires Valid() && index < |entries|
      modifies this
      ensures Valid() && Positioned() && index == old(index) + 1
    {
      index := index + 1;
      if IsValid() {
        Parse();
      }
    }

    method Seek(target: Bytes)
      requires Valid()
      modifies this
      ensures Valid() && Positioned() && IsLowerBound(entries, target, index)
    {
      index := 0;
      while IsValid()
        invariant Valid()
        invariant forall j :: 0 <= j < index ==> Compare(UserKey(entries[j].key), target) < 0
        decreases |entries| - index
      {
        Parse();
        if Compare(UserKey(key), target) >= 0 {
          break;
        }
        index := index + 1;
      }
    }
  }
}
