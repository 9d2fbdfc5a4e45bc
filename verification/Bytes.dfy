/** Byte strings: little-endian fixed-width numbers and the order used by the key comparators. */
module Bytes {

  type Byte = x: int | 0 <= x < 256

  type Bytes = seq<Byte>

  /** 256 to the power `width`: the number of values a `width`-byte field can hold. */
  function Radix(width: nat): (r: nat)
    ensures r > 0
  {
    if width == 0 then 1 else 256 * Radix(width - 1)
  }

  /** `put_numeric`: the `width` low-order bytes of `v`, least significant first. */
  function PutNumeric(v: nat, width: nat): (s: Bytes)
    ensures |s| == width
  {
    if width == 0 then [] else [v % 256] + PutNumeric(v / 256, width - 1)
  }

  /** `get_numeric`: the number held in the first `width` bytes of `s`. */
  function GetNumeric(s: Bytes, width: nat): (v: nat)
    requires width <= |s|
    ensures v < Radix(width)
  {
    if width == 0 then 0 else s[0] + 256 * GetNumeric(s[1..], width - 1)
  }

  /** Reading back a stored number gives the number, whatever bytes follow it. */
  lemma {:induction false} GetAfterPut(v: nat, width: nat, rest: Bytes)
    requires v < Radix(width)
    ensures GetNumeric(PutNumeric(v, width) + rest, width) == v
  {
    if width > 0 {
      GetAfterPut(v / 256, width - 1, rest);
      assert (PutNumeric(v, width) + rest)[1..] == PutNumeric(v / 256, width - 1) + rest;
    }
  }

  lemma Digit(low: Byte, rest: nat)
    ensures (low + 256 * rest) % 256 == low && (low + 256 * rest) / 256 == rest
  {
  }

  /** Storing what was read gives the same bytes, so fixed-width fields are equal when their numbers are. */
  lemma {:induction false} PutAfterGet(s: Bytes, width: nat)
    requires width <= |s|
    ensures PutNumeric(GetNumeric(s, width), width) == s[..width]
  {
    if width > 0 {
      PutAfterGet(s[1..], width - 1);
      Digit(s[0], GetNumeric(s[1..], width - 1));
      assert s[..width] == [s[0]] + s[1..][..width - 1];
    }
  }

  /** A field is read from its own bytes only. */
  lemma {:induction false} GetNumericPrefix(s: Bytes, rest: Bytes, width: nat)
    requires width <= |s|
    ensures GetNumeric(s + rest, width) == GetNumeric(s, width)
  {
    if width > 0 {
      GetNumericPrefix(s[1..], rest, width - 1);
      assert (s + rest)[1..] == s[1..] + rest;
    }
  }

  /** The widths used by the on-disk formats. */
  lemma Radix4()
    ensures Radix(4) == 0x1_0000_0000
  {
    assert Radix(2) == 65536;
    assert Radix(3) == 256 * 65536;
  }

  /** Bytewise lexicographic comparison, a proper prefix being smaller; -1, 0 or 1. */
  function Compare(a: Bytes, b: Bytes): (r: int)
    ensures -1 <= r <= 1
  {
    if a == [] && b == [] then 0
    else if a == [] then -1
    else if b == [] then 1
    else if a[0] < b[0] then -1
    else if a[0] > b[0] then 1
    else Compare(a[1..], b[1..])
  }

  lemma {:induction false} CompareReflects(a: Bytes, b: Bytes)
    ensures Compare(a, b) == 0 <==> a == b
    ensures Compare(a, b) == -Compare(b, a)
  {
    if a != [] && b != [] {
      CompareReflects(a[1..], b[1..]);
      assert a == [a[0]] + a[1..] && b == [b[0]] + b[1..];
    }
  }

  lemma {:induction false} CompareTransitive(a: Bytes, b: Bytes, c: Bytes)
    requires Compare(a, b) <= 0 && Compare(b, c) <= 0
    ensures Compare(a, c) <= 0
    ensures Compare(a, b) < 0 || Compare(b, c) < 0 ==> Compare(a, c) < 0
  {
    if a != [] && b != [] && c != [] && a[0] == b[0] == c[0] {
      CompareTransitive(a[1..], b[1..], c[1..]);
    }
  }
}
