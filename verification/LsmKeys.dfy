/** Keys of the LSM tree: internal keys, lookup keys and their comparator. */
module LsmKeys {
  import opened Bytes

  const SEQ_SIZE := 8
  const LOOKUP_KEY_PREFIX_SIZE := 8

  /** A user key followed by an eight-byte sequence number. */
  type InternalKey = k: Bytes | |k| >= SEQ_SIZE witness seq(8, _ => 0)

  datatype Entry = Entry(key: InternalKey, value: Bytes)

  function UserKey(k: InternalKey): Bytes {
    k[..|k| - SEQ_SIZE]
  }

  function Sequence(k: InternalKey): nat {
    GetNumeric(k[|k| - SEQ_SIZE..], SEQ_SIZE)
  }

  function MakeInternalKey(user: Bytes, sequence: nat): InternalKey {
    user + PutNumeric(sequence, SEQ_SIZE)
  }

  lemma InternalKeyParts(user: Bytes, sequence: nat)
    requires sequence < Radix(SEQ_SIZE)
    ensures UserKey(MakeInternalKey(user, sequence)) == user
    ensures Sequence(MakeInternalKey(user, sequence)) == sequence
  {
    var k := MakeInternalKey(user, sequence);
    assert k[|k| - SEQ_SIZE..] == PutNumeric(sequence, SEQ_SIZE) + [];
    GetAfterPut(sequence, SEQ_SIZE, []);
  }

  /** Ascending user keys; for one user key, descending sequence numbers. */
  function InternalCompare(a: InternalKey, b: InternalKey): int {
    var r := Compare(UserKey(a), UserKey(b));
    if r != 0 then r
    else if Sequence(a) > Sequence(b) then -1
    else if Sequence(a) < Sequence(b) then 1
    else 0
  }

  ghost predicate UserLess(a: Bytes, b: Bytes) {
    Compare(a, b) < 0
  }

  ghost predicate KeyLess(a: InternalKey, b: InternalKey) {
    InternalCompare(a, b) < 0
  }

  lemma InternalCompareReflects(a: InternalKey, b: InternalKey)
    ensures InternalCompare(a, b) == 0 <==> a == b
    ensures InternalCompare(a, b) == -InternalCompare(b, a)
  {
    hide GetNumeric, PutNumeric, Compare;
    CompareReflects(UserKey(a), UserKey(b));
    if InternalCompare(a, b) == 0 {
      PutAfterGet(a[|a| - SEQ_SIZE..], SEQ_SIZE);
      PutAfterGet(b[|b| - SEQ_SIZE..], SEQ_SIZE);
      assert a == UserKey(a) + a[|a| - SEQ_SIZE..];
      assert b == UserKey(b) + b[|b| - SEQ_SIZE..];
    }
  }

  lemma InternalCompareTransitive(a: InternalKey, b: InternalKey, c: InternalKey)
    requires InternalCompare(a, b) <= 0 && InternalCompare(b, c) <= 0
    ensures InternalCompare(a, c) <= 0
    ensures InternalCompare(a, b) < 0 || InternalCompare(b, c) < 0 ==> InternalCompare(a, c) < 0
  {
    CompareTransitive(UserKey(a), UserKey(b), UserKey(c));
    CompareReflects(UserKey(a), UserKey(b));
    CompareReflects(UserKey(b), UserKey(c));
    CompareReflects(UserKey(a), UserKey(c));
  }

  /** Strictly ascending internal keys. */
  ghost predicate Sorted(es: seq<Entry>) {
    forall i, j :: 0 <= i < j < |es| ==> KeyLess(es[i].key, es[j].key)
  }

  // ----- lookup keys: an eight-byte length, a user key and a sequence number -----

  function LookupKey(user: Bytes, sequence: nat): Bytes {
    PutNumeric(|user| + SEQ_SIZE, LOOKUP_KEY_PREFIX_SIZE) + user + PutNumeric(sequence, SEQ_SIZE)
  }

  predicate LookupReadable(lookup: Bytes) {
    && |lookup| >= LOOKUP_KEY_PREFIX_SIZE + SEQ_SIZE
    && SEQ_SIZE <= GetNumeric(lookup, LOOKUP_KEY_PREFIX_SIZE) <= |lookup| - LOOKUP_KEY_PREFIX_SIZE
  }

  /** `extract_user_key_from_lookup_key`: everything between the prefix and the last eight bytes. */
  function LookupUserKey(lookup: Bytes): Bytes
    requires LookupReadable(lookup)
  {
    lookup[LOOKUP_KEY_PREFIX_SIZE..|lookup| - SEQ_SIZE]
  }

  /** `get_length_prefixed_string`: as many bytes as the prefix says. */
  function LookupInternalKey(lookup: Bytes): InternalKey
    requires LookupReadable(lookup)
  {
    lookup[LOOKUP_KEY_PREFIX_SIZE..LOOKUP_KEY_PREFIX_SIZE + GetNumeric(lookup, LOOKUP_KEY_PREFIX_SIZE)]
  }

  /** The two readings agree on a lookup key that was built once; with bytes after it,
      the prefix still names the first key while the other reading runs on to the end. */
  lemma LookupParts(user: Bytes, sequence: nat, after: Bytes)
    requires |user| + SEQ_SIZE < Radix(8)
    ensures LookupReadable(LookupKey(user, sequence) + after)
    ensures LookupInternalKey(LookupKey(user, sequence) + after) == MakeInternalKey(user, sequence)
    ensures LookupReadable(LookupKey(user, sequence)) && LookupUserKey(LookupKey(user, sequence)) == user
  {
    hide Radix, GetNumeric, PutNumeric;
    var lookup := LookupKey(user, sequence);
    var tail := user + PutNumeric(sequence, SEQ_SIZE) + after;
    assert lookup + after == PutNumeric(|user| + SEQ_SIZE, LOOKUP_KEY_PREFIX_SIZE) + tail;
    GetAfterPut(|user| + SEQ_SIZE, LOOKUP_KEY_PREFIX_SIZE, tail);
    GetAfterPut(|user| + SEQ_SIZE, LOOKUP_KEY_PREFIX_SIZE, user + PutNumeric(sequence, SEQ_SIZE));
    assert lookup == PutNumeric(|user| + SEQ_SIZE, LOOKUP_KEY_PREFIX_SIZE) + (user + PutNumeric(sequence, SEQ_SIZE));
  }
}
