/** The ring buffer used for network output. */
module RingBuffer {
  import opened Common
  import opened Bytes

  function Min(a: int, b: int): int {
    if a < b then a else b
  }

  // ----- what wrapped storage means, on values -----

  /** The `n` bytes stored from position `r` on, wrapping at the end of `b`. */
  function Wrapped(b: Bytes, r: nat, n: nat): Bytes
    requires n <= |b| && (r < |b| || (n == 0 && r == 0))
  {
    if r + n <= |b| then b[r..r + n] else b[r..] + b[..r + n - |b|]
  }

  /** The position just after the `n` bytes from `r`. */
  function After(cap: nat, r: nat, n: nat): nat {
    if r + n < cap then r + n else r + n - cap
  }

  /** Storing a contiguous piece after the stored bytes appends it. */
  lemma WrappedAppend(b: Bytes, b': Bytes, r: nat, n: nat, piece: Bytes)
    requires n <= |b| == |b'| && r < |b| && n + |piece| <= |b|
    requires var w := After(|b|, r, n);
      && w + |piece| <= |b|
      && b' == b[..w] + piece + b[w + |piece|..]
    ensures Wrapped(b', r, n + |piece|) == Wrapped(b, r, n) + piece
  {
    hide Wrapped;
    var w := After(|b|, r, n);
    assert b'[..w] == b[..w] && b'[w..w + |piece|] == piece
      && b'[w + |piece|..] == b[w + |piece|..] by { StoredAt(b, b', w, piece); }
    if r + n < |b| {
      Straight(b, r, n);
      Straight(b', r, n + |piece|);
      SliceJoin(b', r, w, w + |piece|);
      SameSlice(b, b', r, w, w);
    } else {
      Around(b, r, n);
      Around(b', r, n + |piece|);
      SliceJoin(b', 0, w, w + |piece|);
      SameRest(b, b', r, w + |piece|);
      Regroup(b[r..], b[..w], piece);
    }
  }

  lemma Straight(b: Bytes, r: nat, n: nat)
    requires r < |b| && r + n <= |b|
    ensures Wrapped(b, r, n) == b[r..r + n]
  {
  }

  lemma Around(b: Bytes, r: nat, n: nat)
    requires r < |b| && n <= |b| && r + n >= |b|
    ensures Wrapped(b, r, n) == b[r..] + b[..r + n - |b|]
  {
  }

  lemma Regroup(x: Bytes, y: Bytes, z: Bytes)
    ensures (x + y) + z == x + (y + z)
  {
  }

  lemma SameRest(b: Bytes, b': Bytes, r: nat, from: nat)
    requires from <= r <= |b| == |b'| && b'[from..] == b[from..]
    ensures b'[r..] == b[r..]
  {
    assert b'[r..] == b'[from..][r - from..];
    assert b[r..] == b[from..][r - from..];
  }

  lemma StoredAt(b: Bytes, b': Bytes, w: nat, piece: Bytes)
    requires w + |piece| <= |b| && b' == b[..w] + piece + b[w + |piece|..]
    ensures |b'| == |b| && b'[..w] == b[..w] && b'[w..w + |piece|] == piece && b'[w + |piece|..] == b[w + |piece|..]
  {
  }

  lemma SameSlice(b: Bytes, b': Bytes, lo: nat, hi: nat, w: nat)
    requires lo <= hi <= w <= |b| == |b'| && b'[..w] == b[..w]
    ensures b'[lo..hi] == b[lo..hi]
  {
    assert b'[lo..hi] == b'[..w][lo..hi];
    assert b[lo..hi] == b[..w][lo..hi];
  }

  lemma SliceJoin(b: Bytes, lo: nat, mid: nat, hi: nat)
    requires lo <= mid <= hi <= |b|
    ensures b[lo..hi] == b[lo..mid] + b[mid..hi]
  {
  }

  /** Moving the start on drops bytes from the front. */
  lemma WrappedDrop(b: Bytes, r: nat, n: nat, k: nat)
    requires k <= n <= |b| && r < |b|
    ensures After(|b|, r, k) < |b|
    ensures Wrapped(b, After(|b|, r, k), n - k) == Wrapped(b, r, n)[k..]
  {
    if r + n <= |b| {
      SliceDrop(b, r, r + n, k);
    } else {
      DropConcat(b[r..], b[..r + n - |b|], k);
      if r + k < |b| {
        SliceDrop(b, r, |b|, k);
      } else {
        SliceDrop(b, 0, r + n - |b|, r + k - |b|);
      }
    }
  }

  lemma SliceDrop(b: Bytes, lo: nat, hi: nat, k: nat)
    requires lo + k <= hi <= |b|
    ensures b[lo..hi][k..] == b[lo + k..hi]
    ensures hi == |b| ==> b[lo..][k..] == b[lo + k..]
    ensures lo == 0 ==> b[..hi][k..] == b[k..hi]
  {
  }

  lemma DropConcat(x: Bytes, y: Bytes, k: nat)
    requires k <= |x| + |y|
    ensures (x + y)[k..] == if k <= |x| then x[k..] + y else y[k - |x|..]
  {
  }

  /** Remainders of numbers below twice the capacity. */
  lemma WrapsOnce(x: nat, cap: nat)
    requires x < 2 * cap
    ensures x % cap == if x < cap then x else x - cap
  {
    if x >= cap {
      assert x == cap * 1 + (x - cap);
    }
  }

  /** The sum in `read_pos` as `int32_t` arithmetic needs it. */
  predicate ReadSumFits(cap: nat, writePos: nat, size: nat) {
    -0x8000_0000 <= writePos - size && writePos - size + cap < 0x8000_0000
  }

  /** The sum never overflows exactly up to a capacity of 2^30. */
  lemma ReadSumFitsIff(cap: nat)
    requires 0 < cap < 0x8000_0000
    ensures (forall w: nat, n: nat :: w < cap && n <= cap ==> ReadSumFits(cap, w, n)) <==> cap <= 0x4000_0000
  {
    if cap > 0x4000_0000 {
      assert !ReadSumFits(cap, cap - 1, 0);
    }
  }

  class RingBuffer {
    const buffer: array<Byte>
    var dataSize: nat
    var writePos: nat

    ghost predicate Valid()
      reads this
    {
      && dataSize <= buffer.Length
      && (writePos < buffer.Length || (buffer.Length == 0 && writePos == 0))
    }

    function ReadPos(): (r: nat)
      reads this
      requires Valid() && buffer.Length > 0
      ensures r < buffer.Length && writePos == After(buffer.Length, r, dataSize)
      ensures buffer.Length <= 0x4000_0000 ==> ReadSumFits(buffer.Length, writePos, dataSize)
    {
      WrapsOnce(writePos - dataSize + buffer.Length, buffer.Length);
      (writePos - dataSize + buffer.Length) % buffer.Length
    }

    lemma ReadPosIs(r: nat)
      requires Valid() && r < buffer.Length && writePos == After(buffer.Length, r, dataSize)
      ensures ReadPos() == r
    {
      WrapsOnce(writePos - dataSize + buffer.Length, buffer.Length);
    }

    /** The bytes waiting to be read, oldest first. */
    ghost function Contents(): (s: Bytes)
      reads this, buffer
      requires Valid()
      ensures |s| == dataSize
    {
      if buffer.Length == 0 then [] else Wrapped(buffer[..], ReadPos(), dataSize)
    }

    function Remain(): nat
      reads this
      requires Valid()
    {
      buffer.Length - dataSize
    }

    constructor (size: nat)
      ensures Valid() && Contents() == [] && buffer.Length == size && fresh(buffer)
    {
      buffer := new Byte[size](_ => 0);
      dataSize, writePos := 0, 0;
    }

    /** `buffer`: the contiguous run of bytes at the front, without removing it. */
    method Front() returns (pos: nat, len: nat)
      requires Valid()
      ensures pos + len <= buffer.Length && len <= dataSize
      ensures buffer[pos..pos + len] == Contents()[..len]
      ensures len == 0 <==> dataSize == 0
    {
      if dataSize == 0 {
        return 0, 0;
      }
      pos := ReadPos();
      if pos < writePos {
        len := writePos - pos;
      } else {
        len := buffer.Length - pos;
      }
    }

    method Forward(size: int) returns (rc: RC)
      requires Valid()
      modifies this`dataSize
      ensures Valid()
      ensures rc == if 0 < size <= old(dataSize) then SUCCESS else INVALID_ARGUMENT
      ensures Contents() == if rc == SUCCESS then old(Contents())[size..] else old(Contents())
    {
      if size <= 0 || size > dataSize {
        return INVALID_ARGUMENT;
      }
      WrappedDrop(buffer[..], ReadPos(), dataSize, size);
      ghost var r := ReadPos();
      dataSize := dataSize - size;
      ReadPosIs(After(buffer.Length, r, size));
      return SUCCESS;
    }

    /** `memcpy` into the storage. */
    method CopyIn(at: nat, data: Bytes, from: nat, len: nat)
      requires at + len <= buffer.Length && from + len <= |data|
      modifies buffer
      ensures buffer[..] == old(buffer[..at]) + data[from..from + len] + old(buffer[at + len..])
    {
      var i := 0;
      while i < len
        invariant 0 <= i <= len
        invariant forall k :: 0 <= k < at ==> buffer[k] == old(buffer[k])
        invariant forall k :: at + i <= k < buffer.Length ==> buffer[k] == old(buffer[k])
        invariant forall k :: at <= k < at + i ==> buffer[k] == data[from + k - at]
      {
        buffer[at + i] := data[from + i];
        i := i + 1;
      }
      assert buffer[..at] == old(buffer[..at]) && buffer[at + len..] == old(buffer[at + len..]);
      assert buffer[at..at + len] == data[from..from + len];
      assert buffer[..] == buffer[..at] + buffer[at..at + len] + buffer[at + len..];
    }

    /** Takes as much of the first `size` bytes of `data` as there is room for. */
    method Write(data: Bytes, size: int) returns (rc: RC, writeSize: nat)
      requires Valid() && size <= |data|
      modifies this, buffer
      ensures Valid()
      ensures rc == if size < 0 then INVALID_ARGUMENT else SUCCESS
      ensures writeSize == if size < 0 then 0 else Min(size, old(Remain()))
      ensures Contents() == old(Contents()) + data[..writeSize]
    {
      hide Contents;
      writeSize := 0;
      if size < 0 {
        return INVALID_ARGUMENT, 0;
      }
      while writeSize < size && Remain() > 0
        invariant Valid() && 0 <= writeSize <= size
        invariant writeSize + Remain() == old(Remain())
        invariant Contents() == old(Contents()) + data[..writeSize]
        decreases size - writeSize
      {
        var copied := WriteRun(data, writeSize, size);
        assert data[..writeSize] + data[writeSize..writeSize + copied] == data[..writeSize + copied];
        writeSize := writeSize + copied;
      }
      rc := SUCCESS;
    }

    /** One contiguous copy of the loop of `write`. */
    method WriteRun(data: Bytes, from: nat, size: nat) returns (copied: nat)
      requires Valid() && from < size <= |data| && Remain() > 0
      modifies this, buffer
      ensures Valid() && 0 < copied <= size - from
      ensures Remain() == old(Remain()) - copied
      ensures Contents() == old(Contents()) + data[from..from + copied]
    {
      hide Wrapped, ReadPos;
      var readPos := ReadPos();
      var room := if readPos <= writePos then buffer.Length - writePos else readPos - writePos;
      copied := Min(size - from, room);
      ghost var before := buffer[..];
      CopyIn(writePos, data, from, copied);
      WrappedAppend(before, buffer[..], readPos, dataSize, data[from..from + copied]);
      WrapsOnce(writePos + copied, buffer.Length);
      writePos := (writePos + copied) % buffer.Length;
      dataSize := dataSize + copied;
      ReadPosIs(readPos);
    }

    /** One contiguous copy of the loop of `read`. */
    method ReadRun(size: nat) returns (piece: Bytes)
      requires Valid() && size > 0 && dataSize > 0
      modifies this`dataSize
      ensures Valid() && 0 < |piece| <= size && |piece| + dataSize == old(dataSize)
      ensures piece + Contents() == old(Contents())
    {
      hide Contents;
      var pos, len := Front();
      var copied := Min(size, len);
      piece := buffer[pos..pos + len][..copied];
      var rc := Forward(copied);
    }

    /** Removes up to `size` bytes from the front. */
    method Read(size: int) returns (rc: RC, out: Bytes)
      requires Valid()
      modifies this`dataSize
      ensures Valid()
      ensures rc == if size < 0 then INVALID_ARGUMENT else SUCCESS
      ensures |out| == if size < 0 then 0 else Min(size, old(dataSize))
      ensures out + Contents() == old(Contents())
    {
      hide Contents;
      out := [];
      if size < 0 {
        return INVALID_ARGUMENT, out;
      }
      while |out| < size && dataSize > 0
        invariant Valid() && |out| <= size && |out| + dataSize == old(dataSize)
        invariant out + Contents() == old(Contents())
        decreases dataSize
      {
        var piece := ReadRun(size - |out|);
        assert (out + piece) + Contents() == out + (piece + Contents());
        out := out + piece;
      }
      rc := SUCCESS;
    }
  }
}
