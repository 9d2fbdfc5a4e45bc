/** The MD5 block transform of RFC 1321, section 3.4, in table form. */
module Md5Block {
  import opened Bytes

  type Block = b: Bytes | |b| == 64 witness seq(64, _ => 0)

  /** The four chaining registers. */
  datatype State = State(a: bv32, b: bv32, c: bv32, d: bv32)

  const INIT := State(0x67452301, 0xefcdab89, 0x98badcfe, 0x10325476)

  const SINES: seq<bv32> := [
    0xd76aa478, 0xe8c7b756, 0x242070db, 0xc1bdceee, 0xf57c0faf, 0x4787c62a, 0xa8304613, 0xfd469501,
    0x698098d8, 0x8b44f7af, 0xffff5bb1, 0x895cd7be, 0x6b901122, 0xfd987193, 0xa679438e, 0x49b40821,
    0xf61e2562, 0xc040b340, 0x265e5a51, 0xe9b6c7aa, 0xd62f105d, 0x02441453, 0xd8a1e681, 0xe7d3fbc8,
    0x21e1cde6, 0xc33707d6, 0xf4d50d87, 0x455a14ed, 0xa9e3e905, 0xfcefa3f8, 0x676f02d9, 0x8d2a4c8a,
    0xfffa3942, 0x8771f681, 0x6d9d6122, 0xfde5380c, 0xa4beea44, 0x4bdecfa9, 0xf6bb4b60, 0xbebfbc70,
    0x289b7ec6, 0xeaa127fa, 0xd4ef3085, 0x04881d05, 0xd9d4d039, 0xe6db99e5, 0x1fa27cf8, 0xc4ac5665,
    0xf4292244, 0x432aff97, 0xab9423a7, 0xfc93a039, 0x655b59c3, 0x8f0ccc92, 0xffeff47d, 0x85845dd1,
    0x6fa87e4f, 0xfe2ce6e0, 0xa3014314, 0x4e0811a1, 0xf7537e82, 0xbd3af235, 0x2ad7d2bb, 0xeb86d391
  ]

  const SHIFTS: seq<nat> := [7, 12, 17, 22, 5, 9, 14, 20, 4, 11, 16, 23, 6, 10, 15, 21]

  /** F, G, H or I, by round. */
  function Mix(round: nat, x: bv32, y: bv32, z: bv32): bv32 {
    if round == 0 then (x & y) | (!x & z)
    else if round == 1 then (x & z) | (y & !z)
    else if round == 2 then x ^ y ^ z
    else y ^ (x | !z)
  }

  /** Which word of the block step `i` uses. */
  function WordIndex(i: nat): (k: nat)
    requires i < 64
    ensures k < 16
  {
    if i < 16 then i
    else if i < 32 then (5 * i + 1) % 16
    else if i < 48 then (3 * i + 5) % 16
    else (7 * i) % 16
  }

  function RotateLeft(x: bv32, n: nat): bv32
    requires n <= 32
  {
    (x << n) | (x >> (32 - n))
  }

  function Word(block: Block, k: nat): bv32
    requires k < 16
  {
    Radix4();
    GetNumeric(block[4 * k..], 4) as bv32
  }

  /** The rotation of step `i`. */
  function Amount(i: nat): (n: nat)
    requires i < 64
    ensures n <= 32
  {
    SHIFTS[4 * (i / 16) + i % 4]
  }

  function Sum(s: State, block: Block, i: nat): bv32
    requires i < 64
  {
    s.a + Mix(i / 16, s.b, s.c, s.d) + Word(block, WordIndex(i)) + SINES[i]
  }

  /** Step `i`: the register about to be rewritten is `a`, and the registers rotate after it. */
  function Step(s: State, block: Block, i: nat): State
    requires i < 64
  {
    State(s.d, RotateLeft(Sum(s, block, i), Amount(i)) + s.b, s.b, s.c)
  }

  function Steps(s: State, block: Block, i: nat): State
    requires i <= 64
    decreases 64 - i
  {
    if i == 64 then s else Steps(Step(s, block, i), block, i + 1)
  }

  /** `MD5Transform`. */
  function Transform(s: State, block: Block): State {
    var r := Steps(s, block, 0);
    State(s.a + r.a, s.b + r.b, s.c + r.c, s.d + r.d)
  }
}
