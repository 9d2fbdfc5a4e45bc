/** Streaming MD5: a partial-block buffer and a two-word bit counter, refining the digest of a padded message. */
module Md5 {
  import opened Bytes
  import opened Md5Block

  // ----- the digest of a whole message, RFC 1321 sections 3.1 to 3.5 -----

  /** The streaming layer does not depend on what the block transform computes. */
  type Compression = (State, Block) -> State

  /** `f` folded over consecutive 64-byte blocks. */
  function Blocks(f: Compression, s: State, data: Bytes): State
    requires |data| % 64 == 0
    decreases |data|
  {
    if data == [] then s else Blocks(f, f(s, data[..64]), data[64..])
  }

  lemma {:induction false} BlocksSnoc(f: Compression, s: State, data: Bytes, block: Block)
    requires |data| % 64 == 0
    ensures Blocks(f, s, data + block) == f(Blocks(f, s, data), block)
    decreases |data|
  {
    if data == [] {
      assert data + block == block;
      assert block[..64] == block && block[64..] == [];
      assert Blocks(f, f(s, block), []) == f(s, block);
    } else {
      BlocksSnoc(f, f(s, data[..64]), data[64..], block);
      assert (data + block)[..64] == data[..64];
      assert (data + block)[64..] == data[64..] + block;
    }
  }

  function Zeros(n: nat): (z: Bytes)
    ensures |z| == n
  {
    seq(n, _ => 0)
  }

  /** One 0x80 byte, the fewest zero bytes that leave eight to a block boundary, and the bit length modulo 2^64. */
  function Pad(m: Bytes): Bytes {
    m + [0x80] + Zeros((55 - |m|) % 64) + PutNumeric(8 * |m| % (0x1_0000_0000 * 0x1_0000_0000), 8)
  }

  lemma PadAligned(m: Bytes)
    ensures |Pad(m)| % 64 == 0
  {
    hide PutNumeric;
    assert |Pad(m)| == |m| + 1 + (55 - |m|) % 64 + 8;
  }

  function EncodeState(s: State): Bytes {
    PutNumeric(s.a as nat, 4) + PutNumeric(s.b as nat, 4) + PutNumeric(s.c as nat, 4) + PutNumeric(s.d as nat, 4)
  }

  /** The digest of a whole message under the transform `f`. */
  function Digest(f: Compression, m: Bytes): Bytes {
    PadAligned(m);
    EncodeState(Blocks(f, INIT, Pad(m)))
  }

  /** Distinct messages of fewer than 2^61 bytes are padded differently. */
  lemma PadInjective(a: Bytes, b: Bytes)
    requires Pad(a) == Pad(b)
    requires 8 * |a| < 0x1_0000_0000 * 0x1_0000_0000 && 8 * |b| < 0x1_0000_0000 * 0x1_0000_0000
    ensures a == b
  {
    hide PutNumeric, Pad;
    PadParts(a);
    PadParts(b);
    SameField(8 * |a|, 8 * |b|);
  }

  /** A padded message begins with the message and ends with its length. */
  lemma PadParts(m: Bytes)
    requires 8 * |m| < 0x1_0000_0000 * 0x1_0000_0000
    ensures |Pad(m)| >= |m| + 8 && Pad(m)[..|m|] == m && Pad(m)[|Pad(m)| - 8..] == PutNumeric(8 * |m|, 8)
  {
    hide PutNumeric, Zeros;
    var rest := [0x80] + Zeros((55 - |m|) % 64);
    assert Pad(m) == m + rest + PutNumeric(8 * |m|, 8);
  }

  lemma SameField(a: nat, b: nat)
    requires a < 0x1_0000_0000 * 0x1_0000_0000 && b < 0x1_0000_0000 * 0x1_0000_0000
    requires PutNumeric(a, 8) == PutNumeric(b, 8)
    ensures a == b
  {
    hide PutNumeric, GetNumeric;
    assert Radix(8) == 0x1_0000_0000 * 0x1_0000_0000 by { Radix8(); }
    GetAfterPut(a, 8, []);
    GetAfterPut(b, 8, []);
  }

  lemma Radix8()
    ensures Radix(8) == 0x1_0000_0000 * 0x1_0000_0000
  {
    Radix4();
    assert Radix(5) == 256 * Radix(4);
    assert Radix(6) == 256 * Radix(5);
    assert Radix(7) == 256 * Radix(6);
  }

  // ----- the bit counter -----

  ghost predicate Counts(low: nat, high: nat, bytes: nat) {
    low == 8 * bytes % 0x1_0000_0000 && high == 8 * bytes / 0x1_0000_0000 % 0x1_0000_0000
  }

  /** `count[0]` and `count[1]` after `len` more bytes, with the carry the code computes. */
  function AddLow(low: nat, len: nat): nat {
    (low + 8 * len % 0x1_0000_0000) % 0x1_0000_0000
  }

  function AddHigh(low: nat, high: nat, len: nat): nat {
    var carried := if AddLow(low, len) < 8 * len % 0x1_0000_0000 then (high + 1) % 0x1_0000_0000 else high;
    (carried + len / 0x2000_0000) % 0x1_0000_0000
  }

  lemma CounterStep(low: nat, high: nat, bytes: nat, len: nat)
    requires Counts(low, high, bytes) && len < 0x1_0000_0000
    ensures Counts(AddLow(low, len), AddHigh(low, high, len), bytes + len)
  {
    hide AddLow, AddHigh;
    var q, r := 8 * bytes / 0x1_0000_0000, 8 * bytes % 0x1_0000_0000;
    var t, u := 8 * len / 0x1_0000_0000, 8 * len % 0x1_0000_0000;
    var carry := if r + u < 0x1_0000_0000 then 0 else 1;
    WordParts(8 * (bytes + len), q + t + carry, r + u - 0x1_0000_0000 * carry);
    CounterParts(low, high, bytes, len, q, t, r, u, carry);
  }

  lemma WordParts(x: nat, q: nat, r: nat)
    requires x == 0x1_0000_0000 * q + r && r < 0x1_0000_0000
    ensures x / 0x1_0000_0000 == q && x % 0x1_0000_0000 == r
  {
  }

  lemma CounterParts(low: nat, high: nat, bytes: nat, len: nat, q: nat, t: nat, r: nat, u: nat, carry: nat)
    requires Counts(low, high, bytes) && r == low && high == q % 0x1_0000_0000
    requires t == len / 0x2000_0000 && u == 8 * len % 0x1_0000_0000
    requires r < 0x1_0000_0000 && carry == if r + u < 0x1_0000_0000 then 0 else 1
    requires 8 * (bytes + len) / 0x1_0000_0000 == q + t + carry && 8 * (bytes + len) % 0x1_0000_0000 == r + u - 0x1_0000_0000 * carry
    ensures Counts(AddLow(low, len), AddHigh(low, high, len), bytes + len)
  {
    WordParts(r + u, carry, r + u - 0x1_0000_0000 * carry);
    ModPlus(q, carry);
    ModPlus(q, carry + t);
    ModPlus(q + carry, t);
  }

  lemma ModPlus(a: nat, b: nat)
    ensures (a % 0x1_0000_0000 + b) % 0x1_0000_0000 == (a + b) % 0x1_0000_0000
  {
    var x, k := a % 0x1_0000_0000 + b, a / 0x1_0000_0000;
    assert a + b == x + 0x1_0000_0000 * k;
    WordParts(a + b, x / 0x1_0000_0000 + k, x % 0x1_0000_0000);
  }

  lemma CounterIndex(low: nat, high: nat, bytes: nat)
    requires Counts(low, high, bytes)
    ensures low / 8 % 64 == bytes % 64
  {
    var q := 8 * bytes / 0x1_0000_0000;
    assert low == 8 * (bytes - 0x2000_0000 * q);
    SameTail(bytes, low / 8, 0x80_0000 * q);
  }

  lemma SameTail(a: nat, b: nat, k: nat)
    requires a == b + 64 * k
    ensures a % 64 == b % 64
  {
  }

  lemma CounterValue(low: nat, high: nat, bytes: nat)
    requires Counts(low, high, bytes)
    ensures low + 0x1_0000_0000 * high == 8 * bytes % (0x1_0000_0000 * 0x1_0000_0000)
  {
  }

  // ----- the copy loop's 32-bit guard -----

  /** The loop guard as `unsigned int` arithmetic computes it. */
  predicate Guard(i: nat, len: nat) {
    (i + 63) % 0x1_0000_0000 < len
  }

  /** The position at which the block loop should stop: fewer than 64 bytes are left. */
  function StopAt(index: nat, len: nat): nat
    requires index < 64
  {
    var partLen := 64 - index;
    if len < partLen then 0 else len - (len - partLen) % 64
  }

  /** Adding 63 at the stopping position does not wrap. */
  predicate NoWrap(index: nat, len: nat)
    requires index < 64
  {
    StopAt(index, len) + 63 < 0x1_0000_0000
  }

  /** The guard is right at every position the loop should visit exactly when that addition does not wrap. */
  lemma GuardExact(index: nat, len: nat)
    requires index < 64 && 64 - index <= len < 0x1_0000_0000
    ensures NoWrap(index, len) <==>
      forall k: nat :: 64 - index + 64 * k <= StopAt(index, len) ==>
        (Guard(64 - index + 64 * k, len) <==> 64 - index + 64 * k + 64 <= len)
  {
    var partLen, stop := 64 - index, StopAt(index, len);
    var n := (len - partLen) / 64;
    assert stop == partLen + 64 * n;
    if !NoWrap(index, len) {
      assert Guard(partLen + 64 * n, len);
    }
  }

  /** On an empty buffer the guard never wraps. */
  lemma FirstUpdateIsSafe(len: nat)
    requires len < 0x1_0000_0000
    ensures NoWrap(0, len)
  {
  }

  /** With one byte buffered, the longest input does: the loop goes on with fewer than 64 bytes left. */
  lemma LongestInputWraps()
    ensures !NoWrap(1, 0xFFFF_FFFF)
    ensures Guard(0xFFFF_FFFF, 0xFFFF_FFFF) && StopAt(1, 0xFFFF_FFFF) == 0xFFFF_FFFF
  {
  }

  /** No call of at most 2^32 - 64 bytes wraps, whatever the buffer holds. */
  lemma ShortIsSafe(index: nat, len: nat)
    requires index < 64 && len <= 0x1_0000_0000 - 64
    ensures NoWrap(index, len)
  {
  }

  /** A position the block loop visits: whole blocks after the completed one. */
  ghost predicate Visited(index: nat, len: nat, i: nat)
    requires index < 64
  {
    64 - index <= i <= StopAt(index, len) && (i - (64 - index)) % 64 == 0
  }

  /** There the guard says whether a whole block is left, except that at the stopping position it says so
      wrongly when it wraps. */
  lemma GuardAt(index: nat, len: nat, i: nat)
    requires index < 64 && 64 - index <= len < 0x1_0000_0000 && Visited(index, len, i)
    ensures i + 64 <= len ==> Guard(i, len) && Visited(index, len, i + 64)
    ensures i + 64 > len ==> len - i < 64 && (Guard(i, len) <==> !NoWrap(index, len))
    ensures i <= len
  {
  }

  lemma VisitsStart(index: nat, len: nat)
    requires index < 64 && 64 - index <= len
    ensures Visited(index, len, 64 - index)
  {
  }

  // ----- the context -----

  class Context {
    const compress: Compression
    var state: State
    var low: nat
    var high: nat
    const buffer: array<Byte>
    ghost var seen: Bytes  // everything passed to Update since the start

    /** The state covers the full blocks seen, the buffer holds the rest, the counter the bit length. */
    ghost predicate Valid()
      reads this, buffer
    {
      Covers(seen) && Counts(low, high, |seen|)
    }

    ghost predicate Covers(all: Bytes)
      reads this`state, buffer
    {
      var tail := |all| % 64;
      && buffer.Length == 64
      && Holds(all, |all| - tail)
      && buffer[..tail] == all[|all| - tail..]
    }

    /** `MD5Init`. */
    constructor (compress: Compression)
      ensures Valid() && seen == [] && fresh(buffer) && this.compress == compress
    {
      this.compress := compress;
      state, low, high := INIT, 0, 0;
      buffer := new Byte[64](_ => 0);
      seen := [];
    }

    /** `MD5_memcpy` into the buffer. */
    method CopyIn(index: nat, input: Bytes, from: nat, len: nat)
      requires buffer.Length == 64 && index + len <= 64 && from + len <= |input|
      modifies buffer
      ensures buffer[..index] == old(buffer[..index])
      ensures buffer[index..index + len] == input[from..from + len]
    {
      var i := 0;
      while i < len
        invariant 0 <= i <= len
        invariant forall k :: 0 <= k < index ==> buffer[k] == old(buffer[k])
        invariant forall k :: index <= k < index + i ==> buffer[k] == input[from + k - index]
      {
        buffer[index + i] := input[from + i];
        i := i + 1;
      }
    }

    /** Completes the buffered block and absorbs the following ones straight from the input. */
    method AbsorbInput(ghost all: Bytes, ghost n: nat, index: nat, input: Bytes) returns (i: nat, overruns: bool)
      requires n <= |all| && all[n..] == input && |input| < 0x1_0000_0000
      requires index == n % 64 && 64 - index <= |input|
      requires buffer.Length == 64 && buffer[..index] == all[n - index..n]
      requires Holds(all, n - index)
      modifies this`state, buffer
      ensures overruns <==> !NoWrap(index, |input|)
      ensures !overruns ==> 0 < i <= |input| && |input| - i < 64 && Holds(all, n + i)
    {
      hide Blocks, Holds, Visited, Guard, NoWrap;
      var partLen := 64 - index;
      CopyIn(index, input, 0, partLen);
      BufferIsBlock(all, n, index, input);
      Absorb(all, n - index, buffer[..]);
      i := partLen;
      VisitsStart(index, |input|);
      while Guard(i, |input|)
        invariant Visited(index, |input|, i) && Holds(all, n + i)
        decreases |input| - i
      {
        GuardAt(index, |input|, i);
        if i + 64 > |input| {
          return i, true;
        }
        assert input[i..i + 64] == all[n + i..n + i + 64];
        Absorb(all, n + i, input[i..i + 64]);
        i := i + 64;
      }
      GuardAt(index, |input|, i);
      overruns := false;
    }

    lemma BufferIsBlock(all: Bytes, n: nat, index: nat, input: Bytes)
      requires n <= |all| && all[n..] == input && index <= n && index < 64 && 64 - index <= |input|
      requires buffer.Length == 64 && buffer[..index] == all[n - index..n]
      requires buffer[index..64] == input[..64 - index]
      ensures buffer[..] == all[n - index..n + 64 - index]
    {
      assert buffer[..] == buffer[..index] + buffer[index..64];
    }

    /** `state` is the fold over the first `at` bytes of `all`. */
    ghost predicate Holds(all: Bytes, at: nat)
      reads this`state
    {
      at % 64 == 0 && at <= |all| && state == Blocks(compress, INIT, all[..at])
    }

    /** Counts `len` more bytes; the result is the fill of the buffer before them. */
    method CountBits(len: nat) returns (index: nat)
      requires Counts(low, high, |seen|) && len < 0x1_0000_0000
      modifies this`low, this`high
      ensures Counts(low, high, |seen| + len) && index == |seen| % 64
    {
      CounterIndex(low, high, |seen|);
      CounterStep(low, high, |seen|, len);
      index := low / 8 % 64;
      high := AddHigh(low, high, len);
      low := AddLow(low, len);
    }

    /** `MD5Update`. It reads past the end of the input exactly when the loop guard wraps. */
    method Update(input: Bytes) returns (overruns: bool)
      requires Valid() && |input| < 0x1_0000_0000
      modifies this, buffer
      ensures overruns <==> !NoWrap(|old(seen)| % 64, |input|)
      ensures !overruns ==> Valid() && seen == old(seen) + input
    {
      hide Blocks, Counts, NoWrap, StopAt, Holds, Covers;
      var index := CountBits(|input|);
      overruns := Take(index, input);
      seen := seen + input;
    }

    /** Absorbs the input's full blocks and keeps the rest. */
    method Take(index: nat, input: Bytes) returns (overruns: bool)
      requires Covers(seen) && |input| < 0x1_0000_0000 && index == |seen| % 64
      modifies this`state, buffer
      ensures overruns <==> !NoWrap(index, |input|)
      ensures !overruns ==> Covers(seen + input)
    {
      hide Blocks, NoWrap, StopAt, Holds;
      ghost var all, at := seen + input, |seen| - index;
      assert all[|seen|..] == input && all[at..|seen|] == seen[at..];
      PrefixHolds(all);
      var i;
      i, overruns, at := Consume(all, |seen|, index, input);
      if overruns {
        return;
      }
      BufferRest(all, at, if i == 0 then index else 0, input, i);
    }

    /** What held of the bytes seen holds of their extension. */
    lemma PrefixHolds(all: Bytes)
      requires Holds(seen, |seen| - |seen| % 64) && seen <= all
      ensures Holds(all, |seen| - |seen| % 64)
    {
      var at := |seen| - |seen| % 64;
      assert all[..at] == seen[..at];
    }

    /** Absorbs every block the input completes; `i` input bytes are used up, the fold ends at `at`. */
    method Consume(ghost all: Bytes, ghost n: nat, index: nat, input: Bytes) 
      returns (i: nat, overruns: bool, ghost at: nat)
      requires n <= |all| && all[n..] == input && |input| < 0x1_0000_0000
      requires index == n % 64
      requires buffer.Length == 64 && buffer[..index] == all[n - index..n] && Holds(all, n - index)
      modifies this`state, buffer
      ensures overruns <==> !NoWrap(index, |input|)
      ensures !overruns ==> i <= |input| && Holds(all, at)
      ensures !overruns ==> var kept := if i == 0 then index else 0;
        && at + kept + |input| - i == |all| && kept + |input| - i < 64
        && buffer[..kept] == all[at..at + kept] && all[at + kept..] == input[i..]
    {
      hide Blocks, Holds;
      i, overruns, at := 0, false, n - index;
      if |input| >= 64 - index {
        i, overruns := AbsorbInput(all, n, index, input);
        at := n + i;
      }
    }

    /** Keeps what is left of the input after the last full block. */
    method BufferRest(ghost all: Bytes, ghost at: nat, index: nat, input: Bytes, i: nat)
      requires i <= |input| && at + index + |input| - i == |all| && index + |input| - i < 64
      requires buffer.Length == 64 && buffer[..index] == all[at..at + index]
      requires all[at + index..] == input[i..] && Holds(all, at)
      modifies buffer
      ensures |all| % 64 == |all| - at && buffer[..|all| - at] == all[at..] && Holds(all, at)
    {
      CopyIn(index, input, i, |input| - i);
      TailLength(|all|, at);
      var tail := index + |input| - i;
      assert buffer[..tail] == buffer[..index] + buffer[index..tail];
      assert input[i..|input|] == input[i..];
    }

    lemma TailLength(n: nat, at: nat)
      requires at % 64 == 0 && at <= n < at + 64
      ensures n % 64 == n - at
    {
    }

    /** One transform step moves the fold one block on. */
    method Absorb(ghost all: Bytes, ghost at: nat, block: Block)
      requires Holds(all, at) && at + 64 <= |all| && block == all[at..at + 64]
      modifies this`state
      ensures Holds(all, at + 64)
    {
      hide Blocks;
      BlocksSnoc(compress, INIT, all[..at], block);
      assert all[..at] + block == all[..at + 64];
      state := compress(state, block);
    }

    /** `MD5Final`. The context is cleared, so it is no longer in use afterwards. */
    method Final() returns (digest: Bytes)
      requires Valid()
      modifies this, buffer
      ensures digest == Digest(compress, old(seen))
      ensures state == State(0, 0, 0, 0) && low == 0 && high == 0
      ensures forall k :: 0 <= k < buffer.Length ==> buffer[k] == 0
    {
      hide Blocks, PutNumeric, Zeros, Valid, NoWrap, EncodeState;
      ghost var m := seen;
      FieldsInUse();
      BitsField(low, high, |m|);
      CounterIndex(low, high, |m|);
      var bits := PutNumeric(low, 4) + PutNumeric(high, 4);
      var index := low / 8 % 64;
      var padLen := if index < 56 then 56 - index else 120 - index;
      PadLength(|m|);
      PaddingPrefix(padLen);
      ShortIsSafe(|m| % 64, padLen);
      var _ := Update(([0x80] + Zeros(63))[..padLen]);
      ShortIsSafe(|seen| % 64, 8);
      var _ := Update(bits);
      assert seen == Pad(m);
      PadAligned(m);
      WholeState();
      FieldsInUse();
      digest := EncodeState(state);
      Clear();
    }

    lemma FieldsInUse()
      requires Valid()
      ensures Counts(low, high, |seen|) && buffer.Length == 64
    {
    }

    /** On a block boundary the state covers everything seen. */
    lemma WholeState()
      requires Valid() && |seen| % 64 == 0
      ensures state == Blocks(compress, INIT, seen)
    {
      assert seen[..|seen|] == seen;
    }

    method Clear()
      requires buffer.Length == 64
      modifies this`state, this`low, this`high, buffer
      ensures state == State(0, 0, 0, 0) && low == 0 && high == 0
      ensures forall k :: 0 <= k < buffer.Length ==> buffer[k] == 0
    {
      state, low, high := State(0, 0, 0, 0), 0, 0;
      for i := 0 to 64
        invariant forall k :: 0 <= k < i ==> buffer[k] == 0
        invariant state == State(0, 0, 0, 0) && low == 0 && high == 0
      {
        buffer[i] := 0;
      }
    }
  }

  lemma PaddingPrefix(n: nat)
    requires 1 <= n <= 64
    ensures ([0x80] + Zeros(63))[..n] == [0x80] + Zeros(n - 1)
  {
  }

  lemma PadLength(n: nat)
    ensures var padLen := if n % 64 < 56 then 56 - n % 64 else 120 - n % 64;
      padLen == 1 + (55 - n) % 64 && 1 <= padLen <= 64
  {
  }

  /** The two counter words, low first, are the eight bytes of the bit length. */
  lemma BitsField(low: nat, high: nat, bytes: nat)
    requires Counts(low, high, bytes)
    ensures PutNumeric(low, 4) + PutNumeric(high, 4)
         == PutNumeric(8 * bytes % (0x1_0000_0000 * 0x1_0000_0000), 8)
  {
    hide Counts, PutNumeric;
    CounterValue(low, high, bytes);
    Radix4();
    assert low < Radix(4) by {
      assert Counts(low, high, bytes) && low < 0x1_0000_0000 by { CountsInRange(low, high, bytes); }
    }
    PutSplit(low, high, 4, 4);
  }

  lemma CountsInRange(low: nat, high: nat, bytes: nat)
    requires Counts(low, high, bytes)
    ensures low < 0x1_0000_0000 && high < 0x1_0000_0000
  {
  }

  /** Writing a number of `a + b` bytes is writing its low `a` bytes and then the rest. */
  lemma {:induction false} PutSplit(low: nat, high: nat, a: nat, b: nat)
    requires low < Radix(a)
    ensures PutNumeric(low + Radix(a) * high, a + b) == PutNumeric(low, a) + PutNumeric(high, b)
    decreases a
  {
    if a > 0 {
      var rest := Radix(a - 1) * high;
      assert low / 256 < Radix(a - 1);
      assert Radix(a) * high == 256 * rest by { RadixTimes(a, high); }
      LowByte(low, rest);
      PutSplit(low / 256, high, a - 1, b);
      hide Radix;
      assert PutNumeric(low + 256 * rest, a + b) == [low % 256] + PutNumeric(low / 256 + rest, a - 1 + b);
    } else {
      assert Radix(a) * high == high;
    }
  }

  lemma RadixTimes(a: nat, high: nat)
    requires a > 0
    ensures Radix(a) * high == 256 * (Radix(a - 1) * high)
  {
  }

  lemma LowByte(low: nat, rest: nat)
    ensures (low + 256 * rest) % 256 == low % 256 && (low + 256 * rest) / 256 == low / 256 + rest
  {
  }

  // ----- whole-message entry points -----

  function Concat(chunks: seq<Bytes>): Bytes {
    if chunks == [] then [] else chunks[0] + Concat(chunks[1..])
  }

  /** The digest does not depend on how the message is divided over the calls. */
  method DigestOfChunks(f: Compression, chunks: seq<Bytes>) returns (digest: Bytes)
    requires forall i :: 0 <= i < |chunks| ==> |chunks[i]| <= 0x1_0000_0000 - 64
    ensures digest == Digest(f, Concat(chunks))
  {
    hide Blocks, Digest, NoWrap, Context.Valid;
    var context := new Context(f);
    for i := 0 to |chunks|
      invariant context.Valid() && fresh(context) && fresh(context.buffer) && context.compress == f
      invariant context.seen + Concat(chunks[i..]) == Concat(chunks)
    {
      assert chunks[i..][1..] == chunks[i + 1..];
      ShortIsSafe(|context.seen| % 64, |chunks[i]|);
      assert context.seen + (chunks[i] + Concat(chunks[i + 1..])) == (context.seen + chunks[i]) + Concat(chunks[i + 1..]);
      var _ := context.Update(chunks[i]);
    }
    assert chunks[|chunks|..] == [];
    assert context.seen + [] == context.seen;
    digest := context.Final();
  }

  /** `MD5Buffer`: one call on the whole message, of which `unsigned int` gives the length. */
  method DigestOfBuffer(buffer: Bytes) returns (digest: Bytes)
    requires |buffer| < 0x1_0000_0000
    ensures digest == Digest(Transform, buffer)
  {
    FirstUpdateIsSafe(|buffer|);
    hide Blocks, Digest, Transform;
    var context := new Context(Transform);
    var _ := context.Update(buffer);
    assert [] + buffer == buffer;
    digest := context.Final();
  }

  /** `MD5File`: reads of at most 1024 bytes each, of whatever size, until nothing is left. */
  method DigestOfFile(contents: Bytes) returns (digest: Bytes)
    ensures digest == Digest(Transform, contents)
  {
    hide Blocks, Digest, Transform;
    var context := new Context(Transform);
    var at := 0;
    while at < |contents|
      invariant 0 <= at <= |contents|
      invariant context.Valid() && fresh(context) && fresh(context.buffer) && context.compress == Transform
      invariant context.seen == contents[..at]
    {
      var len :| 0 < len <= 1024 && at + len <= |contents|;
      var _ := context.Update(contents[at..at + len]);
      at := at + len;
    }
    assert contents[..at] == contents;
    digest := context.Final();
  }
}
