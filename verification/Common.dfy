/** What several components share: options, return codes, and the typed values of SQL. */
module Common {

  datatype Option<+T> = None | Some(value: T)

  /** The return codes the modelled code uses. */
  datatype RC =
    | SUCCESS | INVALID_ARGUMENT | UNIMPLEMENTED | INTERNAL | NOTFOUND | FULL | RECORD_EOF | IOERR_WRITE

  datatype AttrType = UNDEFINED | CHARS | INTS | FLOATS | VECTORS | BOOLEANS

  datatype Value = NoValue | CharsV(s: string) | IntV(n: int) | FloatV(x: real) | VectorV(xs: seq<real>) | BoolV(b: bool)

  function TypeOf(v: Value): AttrType {
    match v
    case NoValue => UNDEFINED
    case CharsV(_) => CHARS
    case IntV(_) => INTS
    case FloatV(_) => FLOATS
    case VectorV(_) => VECTORS
    case BoolV(_) => BOOLEANS
  }

  // ----- comparing values -----

  const EPSILON := 0.000001

  function CompareInt(a: int, b: int): int {
    if a > b then 1 else if a < b then -1 else 0
  }

  function CompareFloat(a: real, b: real): int {
    var cmp := a - b;
    if cmp > EPSILON then 1 else if cmp < -EPSILON then -1 else 0
  }

  /** C's `strncmp`: up to `n` characters, no further than a NUL in both. */
  function Strncmp(a: string, b: string, n: nat): int
    requires n <= |a| && n <= |b|
    decreases n
  {
    if n == 0 then 0
    else if a[0] != b[0] then (if a[0] < b[0] then -1 else 1)
    else if a[0] == '\0' then 0
    else Strncmp(a[1..], b[1..], n - 1)
  }

  function CompareString(a: string, b: string): int {
    var maxlen := if |a| < |b| then |a| else |b|;
    var result := Strncmp(a, b, maxlen);
    if result != 0 then result
    else if |a| > maxlen then 1
    else if |b| > maxlen then -1
    else 0
  }

  /** The characters before the first NUL. */
  function UpToNul(s: string): string {
    if s == [] || s[0] == '\0' then [] else [s[0]] + UpToNul(s[1..])
  }

  lemma {:induction false} StrncmpZero(a: string, b: string, n: nat)
    requires n <= |a| && n <= |b|
    ensures Strncmp(a, b, n) == 0 <==> UpToNul(a[..n]) == UpToNul(b[..n])
    decreases n
  {
    if n > 0 && a[0] == b[0] && a[0] != '\0' {
      StrncmpZero(a[1..], b[1..], n - 1);
      assert a[..n][1..] == a[1..][..n - 1] && b[..n][1..] == b[1..][..n - 1];
      assert UpToNul(a[..n])[1..] == UpToNul(a[1..][..n - 1]) && UpToNul(b[..n])[1..] == UpToNul(b[1..][..n - 1]);
    } else if n > 0 {
      assert a[..n][0] == a[0] && b[..n][0] == b[0];
    }
  }

  /** Strings compare equal exactly when they are as long and agree up to their first NUL. */
  lemma CompareStringZero(a: string, b: string)
    ensures CompareString(a, b) == 0 <==> |a| == |b| && UpToNul(a) == UpToNul(b)
  {
    if |a| == |b| {
      StrncmpZero(a, b, |a|);
      assert a[..|a|] == a && b[..|a|] == b;
    }
  }

  lemma {:induction false} NoNulKept(s: string)
    requires '\0' !in s
    ensures UpToNul(s) == s
  {
    if s != [] {
      NoNulKept(s[1..]);
    }
  }

  /** The pairs of types `Value::compare` takes, among those modelled. */
  predicate Comparable(a: Value, b: Value) {
    if a.CharsV? then b.CharsV? else (a.IntV? || a.FloatV?) && (b.IntV? || b.FloatV?)
  }

  function AsReal(v: Value): real
    requires v.IntV? || v.FloatV?
  {
    if v.IntV? then v.n as real else v.x
  }

  /** `Value::compare`: integers exactly, strings by `strncmp`, anything with a float within `EPSILON`. */
  function CompareValues(a: Value, b: Value): int
    requires Comparable(a, b)
  {
    if a.CharsV? then CompareString(a.s, b.s)
    else if a.IntV? && b.IntV? then CompareInt(a.n, b.n)
    else CompareFloat(AsReal(a), AsReal(b))
  }
}
