/** Column-at-a-time evaluation of integer expressions, against row-at-a-time evaluation. */
module ExprColumn {
  import opened Common
  import opened Expr

  const SIMD_WIDTH := 8

  /** A constant column stands for `count` equal values; a normal column holds `count` values. */
  datatype Column = Column(isConst: bool, data: seq<int>, count: nat) {
    /** The value of row `i`. */
    function At(i: nat): int
      requires Sound() && i < count
    {
      data[if isConst then 0 else i]
    }

    predicate Sound() {
      if isConst then count > 0 ==> data != [] else |data| == count
    }
  }

  /** A chunk of integer columns of equal length, by field name. */
  datatype Chunk = Chunk(columns: map<string, seq<int>>, rows: nat) {
    predicate Valid() {
      forall f :: f in columns ==> |columns[f]| == rows
    }

    /** Row `i` as the tuple that row-at-a-time evaluation sees. */
    function Row(i: nat): Tuple
      requires Valid() && i < rows
    {
      map f | f in columns :: IntV(columns[f][i])
    }
  }

  /** Trees of integer fields of the chunk, integer constants, and ADD, SUB and MUL. */
  predicate IntTree(e: Expr, chunk: Chunk) {
    match e
    case Field(name, attrType) => attrType == INTS && name in chunk.columns
    case Const(v) => v.IntV?
    case Arithmetic(op, left, operand) =>
      && (op == ADD || op == SUB || op == MUL)
      && operand.Some? && IntTree(left, chunk) && IntTree(operand.value, chunk)
    case _ => false
  }

  lemma {:induction false} IntTreeType(e: Expr, chunk: Chunk)
    requires IntTree(e, chunk)
    ensures ValueType(e) == INTS
  {
    if e.Arithmetic? {
      IntTreeType(e.left, chunk);
      IntTreeType(e.operand.value, chunk);
    }
  }

  // ----- vector registers -----

  /** Eight 32-bit integers, and eight masks: all ones or all zeros from a comparison. */
  type Register = r: seq<int> | |r| == SIMD_WIDTH witness seq(SIMD_WIDTH, _ => 0)

  type Masks = m: seq<bv32> | |m| == SIMD_WIDTH witness seq(SIMD_WIDTH, _ => 0)

  /** A load of eight neighbours, or one value set in all lanes. */
  function Lanes(c: Column, i: nat): (lanes: Register)
    requires c.Sound() && i + SIMD_WIDTH <= c.count
    ensures forall j :: 0 <= j < SIMD_WIDTH ==> lanes[j] == c.At(i + j)
  {
    seq(SIMD_WIDTH, j requires 0 <= j < SIMD_WIDTH => if c.isConst then c.data[0] else c.data[i + j])
  }

  function AddLanes(a: Register, b: Register): Register {
    seq(SIMD_WIDTH, j requires 0 <= j < SIMD_WIDTH => Wrap(a[j] + b[j]))
  }

  /** All ones for true, all zeros for false. */
  function Mask(b: bool): bv32 {
    if b then 0xFFFF_FFFF else 0
  }

  function EqualLanes(a: Register, b: Register): Masks {
    seq(SIMD_WIDTH, j requires 0 <= j < SIMD_WIDTH => Mask(a[j] == b[j]))
  }

  function GreaterLanes(a: Register, b: Register): Masks {
    seq(SIMD_WIDTH, j requires 0 <= j < SIMD_WIDTH => Mask(a[j] > b[j]))
  }

  function OrLanes(a: Masks, b: Masks): Masks {
    seq(SIMD_WIDTH, j requires 0 <= j < SIMD_WIDTH => a[j] | b[j])
  }

  function XorLanes(a: Masks, b: Masks): Masks {
    seq(SIMD_WIDTH, j requires 0 <= j < SIMD_WIDTH => a[j] ^ b[j])
  }

  // ----- arithmetic -----

  /** A value, or the end of the process by `exit`. */
  datatype Outcome<+T> = Done(value: T) | Exits

  /** The operators of integer columns: DIV makes floats, and NEGATIVE has one operand. */
  predicate IntOp(op: ArithOp) {
    op == ADD || op == SUB || op == MUL
  }

  /** The vector overload of the operator: only addition is written, the others exit. */
  function VectorArith(op: ArithOp, a: Register, b: Register): Outcome<Register>
    requires IntOp(op)
  {
    if op == ADD then Done(AddLanes(a, b)) else Exits
  }

  /** `binary_operator` over columns: in the SIMD build eight elements at a time, then the rest one by one. */
  method BinaryOperator(op: ArithOp, left: Column, right: Column, size: nat, simd: bool) returns (r: Outcome<seq<int>>)
    requires IntOp(op) && left.Sound() && right.Sound() && size <= left.count && size <= right.count
    ensures r.Exits? <==> simd && size >= SIMD_WIDTH && op != ADD
    ensures r.Done? ==> |r.value| == size
    ensures r.Done? ==> forall i :: 0 <= i < size ==> r.value[i] == IntArith(op, left.At(i), right.At(i))
  {
    var data, i := [], 0;
    if simd {
      while i + SIMD_WIDTH <= size
        invariant 0 <= i <= size && |data| == i && (op != ADD ==> i == 0)
        invariant forall k :: 0 <= k < i ==> data[k] == IntArith(op, left.At(k), right.At(k))
      {
        var result := VectorArith(op, Lanes(left, i), Lanes(right, i));
        if result.Exits? {
          return Exits;
        }
        data := data + result.value;
        i := i + SIMD_WIDTH;
      }
    }
    while i < size
      invariant 0 <= i <= size && |data| == i
      invariant forall k :: 0 <= k < i ==> data[k] == IntArith(op, left.At(k), right.At(k))
    {
      data := data + [IntArith(op, left.data[if left.isConst then 0 else i], right.data[if right.isConst then 0 else i])];
      i := i + 1;
    }
    r := Done(data);
  }

  /** `calc_column`: constant only when both sides are. */
  method CalcColumn(op: ArithOp, left: Column, right: Column, simd: bool) returns (r: Outcome<Column>)
    requires IntOp(op) && left.Sound() && right.Sound() && left.count == right.count
    ensures r.Exits? <==> simd && left.count >= SIMD_WIDTH && op != ADD
    ensures r.Done? ==> r.value.Sound() && r.value.count == left.count
    ensures r.Done? ==> r.value.isConst == (left.isConst && right.isConst)
    ensures r.Done? ==> forall i :: 0 <= i < left.count ==> r.value.At(i) == IntArith(op, left.At(i), right.At(i))
  {
    var size := if left.count > right.count then left.count else right.count;
    var data := BinaryOperator(op, left, right, size, simd);
    if data.Exits? {
      return Exits;
    }
    r := Done(Column(left.isConst && right.isConst, data.value, size));
  }

  /** The tree has a subtraction or a multiplication. */
  predicate SubOrMul(e: Expr) {
    e.Arithmetic? && (e.arith == SUB || e.arith == MUL || SubOrMul(e.left) || (e.operand.Some? && SubOrMul(e.operand.value)))
  }

  /** `get_column`: it ends the process exactly when the SIMD build meets SUB or MUL on a full block of rows;
      otherwise every row of the column is what `get_value` gives on that row. */
  method GetColumn(t: Types, e: Expr, chunk: Chunk, simd: bool) returns (column: Outcome<Column>)
    requires chunk.Valid() && IntTree(e, chunk)
    ensures column.Exits? <==> simd && chunk.rows >= SIMD_WIDTH && SubOrMul(e)
    ensures column.Done? ==> column.value.Sound() && column.value.count == chunk.rows
    ensures column.Done? ==>
      forall i :: 0 <= i < chunk.rows ==> GetValue(t, e, chunk.Row(i)) == Ok(IntV(column.value.At(i)))
    decreases e
  {
    match e {
      case Field(name, _) =>
        column := Done(Column(false, chunk.columns[name], chunk.rows));
      case Const(v) =>
        column := Done(Column(true, [v.n], chunk.rows));
      case Arithmetic(op, left, operand) =>
        var l := GetColumn(t, left, chunk, simd);
        if l.Exits? {
          return Exits;
        }
        var r := GetColumn(t, operand.value, chunk, simd);
        if r.Exits? {
          return Exits;
        }
        column := CalcColumn(op, l.value, r.value, simd);
        if column.Done? {
          IntTreeType(e, chunk);
          forall i | 0 <= i < chunk.rows ensures GetValue(t, e, chunk.Row(i)) == Ok(IntV(column.value.At(i))) {
            assert GetValue(t, left, chunk.Row(i)) == Ok(IntV(l.value.At(i)));
            assert GetValue(t, operand.value, chunk.Row(i)) == Ok(IntV(r.value.At(i)));
          }
        }
    }
  }

  // ----- comparison -----

  function Compares(op: CompOp, a: int, b: int): bool {
    match op
    case EQUAL_TO => a == b
    case NOT_EQUAL => a != b
    case GREAT_EQUAL => a >= b
    case GREAT_THAN => a > b
    case LESS_EQUAL => a <= b
    case LESS_THAN => a < b
    case NO_OP => true
  }

  /** The vector overloads of the comparison operators, from equality and greater-than. */
  function VectorCompare(op: CompOp, a: Register, b: Register): Masks
    requires op != NO_OP
  {
    match op
    case EQUAL_TO => EqualLanes(a, b)
    case NOT_EQUAL => XorLanes(seq(SIMD_WIDTH, _ => 0xFFFF_FFFF), EqualLanes(a, b))
    case GREAT_THAN => GreaterLanes(a, b)
    case GREAT_EQUAL => OrLanes(GreaterLanes(a, b), EqualLanes(a, b))
    case LESS_THAN => GreaterLanes(b, a)
    case _ => OrLanes(GreaterLanes(b, a), EqualLanes(a, b))
  }

  /** The mask of a lane is non-zero exactly when the scalar operator holds. */
  lemma MaskIsComparison(op: CompOp, a: Register, b: Register, j: nat)
    requires op != NO_OP && j < SIMD_WIDTH
    ensures VectorCompare(op, a, b)[j] != 0 <==> Compares(op, a[j], b[j])
  {
    hide Mask;
    MaskMeans(a[j] == b[j], a[j] > b[j]);
    MaskMeans(a[j] == b[j], b[j] > a[j]);
  }

  lemma MaskMeans(equal: bool, greater: bool)
    ensures Mask(equal) != 0 <==> equal
    ensures Mask(greater) != 0 <==> greater
    ensures 0xFFFF_FFFF ^ Mask(equal) != 0 <==> !equal
    ensures Mask(greater) | Mask(equal) != 0 <==> greater || equal
  {
  }

  /** The selection after the comparison: a row stays selected when it was and compares true. */
  ghost function Selected(op: CompOp, left: Column, right: Column, n: nat, before: seq<nat>): seq<nat>
    requires left.Sound() && right.Sound() && n <= left.count && n <= right.count && n <= |before|
  {
    seq(|before|, i requires 0 <= i < |before| =>
      if i < n && !Compares(op, left.At(i), right.At(i)) then 0 else before[i])
  }

  ghost predicate IsSelection(select: seq<nat>) {
    forall i :: 0 <= i < |select| ==> select[i] <= 1
  }

  /** `&=` with 1 or 0 on a selection byte that is 0 or 1. */
  function And(selected: nat, b: bool): nat {
    if b then selected % 2 else 0
  }

  /** One row of the comparison loops. */
  method CompareRow(op: CompOp, left: Column, right: Column, i: nat, select: array<nat>)
    requires left.Sound() && right.Sound() && i < left.count && i < right.count && i < select.Length && select[i] <= 1
    modifies select
    ensures select[i] == (if Compares(op, left.At(i), right.At(i)) then old(select[i]) else 0)
    ensures forall k :: 0 <= k < select.Length && k != i ==> select[k] == old(select[k])
  {
    var l := left.data[if left.isConst then 0 else i];
    var r := right.data[if right.isConst then 0 else i];
    select[i] := And(select[i], Compares(op, l, r));
  }

  /** The scalar loop of `compare_operation`. */
  method CompareScalar(op: CompOp, left: Column, right: Column, from: nat, n: nat, select: array<nat>)
    requires left.Sound() && right.Sound() && from <= n <= left.count && n <= right.count && n <= select.Length
    requires IsSelection(select[..])
    modifies select
    ensures IsSelection(select[..])
    ensures forall k :: from <= k < n ==>
      select[k] == if Compares(op, left.At(k), right.At(k)) then old(select[k]) else 0
    ensures forall k :: 0 <= k < select.Length && !(from <= k < n) ==> select[k] == old(select[k])
  {
    for i := from to n
      invariant forall k :: from <= k < i ==>
        select[k] == if Compares(op, left.At(k), right.At(k)) then old(select[k]) else 0
      invariant forall k :: 0 <= k < select.Length && !(from <= k < i) ==> select[k] == old(select[k])
      invariant forall k :: 0 <= k < select.Length ==> select[k] <= 1
    {
      CompareRow(op, left, right, i, select);
    }
  }

  /** One block: eight comparisons at once, then their masks one by one. */
  method CompareBlock(op: CompOp, left: Column, right: Column, i: nat, select: array<nat>)
    requires op != NO_OP && left.Sound() && right.Sound() && i + SIMD_WIDTH <= left.count && i + SIMD_WIDTH <= right.count
    requires i + SIMD_WIDTH <= select.Length && IsSelection(select[..])
    modifies select
    ensures IsSelection(select[..])
    ensures forall k :: i <= k < i + SIMD_WIDTH ==>
      select[k] == if Compares(op, left.At(k), right.At(k)) then old(select[k]) else 0
    ensures forall k :: 0 <= k < select.Length && !(i <= k < i + SIMD_WIDTH) ==> select[k] == old(select[k])
  {
    hide Compares, VectorCompare;
    var l, r := Lanes(left, i), Lanes(right, i);
    var masks := VectorCompare(op, l, r);
    for j := 0 to SIMD_WIDTH
      invariant forall k :: i <= k < i + j ==> select[k] == if masks[k - i] != 0 then old(select[k]) else 0
      invariant forall k :: 0 <= k < select.Length && !(i <= k < i + j) ==> select[k] == old(select[k])
    {
      assert old(select[..])[i + j] <= 1;
      select[i + j] := And(select[i + j], masks[j] != 0);
    }
    forall k | 0 <= k < select.Length ensures select[k] <= 1 {
      assert old(select[..])[k] <= 1;
    }
    forall k | i <= k < i + SIMD_WIDTH ensures masks[k - i] != 0 <==> Compares(op, left.At(k), right.At(k)) {
      MaskIsComparison(op, l, r, k - i);
      assert l[k - i] == left.At(k) && r[k - i] == right.At(k);
    }
  }

  /** The SIMD build: eight rows at a time, then the rest one by one; the result is the scalar one. */
  method CompareBlocked(op: CompOp, left: Column, right: Column, n: nat, select: array<nat>)
    requires op != NO_OP && left.Sound() && right.Sound() && n <= left.count && n <= right.count && n <= select.Length
    requires IsSelection(select[..])
    modifies select
    ensures select[..] == Selected(op, left, right, n, old(select[..]))
  {
    hide Compares;
    ghost var before := select[..];
    var i := 0;
    while i + SIMD_WIDTH <= n
      invariant 0 <= i <= n
      invariant IsSelection(select[..])
      invariant select[..] == Selected(op, left, right, i, before)
    {
      CompareBlock(op, left, right, i, select);
      i := i + SIMD_WIDTH;
    }
    CompareScalar(op, left, right, i, n, select);
  }

  /** `compare_result`: the two builds select the same rows; without an operator nothing is compared. */
  method CompareResult(op: CompOp, left: Column, right: Column, n: nat, select: array<nat>, simd: bool)
    requires left.Sound() && right.Sound() && n <= left.count && n <= right.count && n <= select.Length
    requires IsSelection(select[..])
    modifies select
    ensures select[..] == Selected(op, left, right, n, old(select[..]))
  {
    if op == NO_OP {
    } else if simd {
      CompareBlocked(op, left, right, n, select);
    } else {
      CompareScalar(op, left, right, 0, n, select);
    }
  }

  lemma RowComparison(t: Types, e: Expr, row: Tuple, a: int, b: int)
    requires e.Comparison?
    requires GetValue(t, e.left, row) == Ok(IntV(a)) && GetValue(t, e.right, row) == Ok(IntV(b))
    ensures GetValue(t, e, row) == if e.comp == NO_OP then Err(INTERNAL) else Ok(BoolV(Compares(e.comp, a, b)))
  {
  }

  /** Evaluating the comparison column by column ends the process. */
  predicate EvalExits(e: Expr, chunk: Chunk, simd: bool)
    requires e.Comparison?
  {
    simd && chunk.rows >= SIMD_WIDTH && (SubOrMul(e.left) || SubOrMul(e.right))
  }

  /** `eval` of a comparison: a row stays selected exactly when it was and its row evaluation is true.
      Without an operator rows keep their selection although row evaluation fails. */
  method Eval(t: Types, e: Expr, chunk: Chunk, select: array<nat>, simd: bool) returns (exits: bool)
    requires chunk.Valid() && e.Comparison?
    requires IntTree(e.left, chunk) && IntTree(e.right, chunk)
    requires select.Length == chunk.rows && IsSelection(select[..])
    modifies select
    ensures exits <==> EvalExits(e, chunk, simd)
    ensures exits ==> select[..] == old(select[..])
    ensures !exits && e.comp != NO_OP ==> forall i :: 0 <= i < chunk.rows ==>
      && (GetValue(t, e, chunk.Row(i)) == Ok(BoolV(true)) || GetValue(t, e, chunk.Row(i)) == Ok(BoolV(false)))
      && select[i] == if GetValue(t, e, chunk.Row(i)) == Ok(BoolV(true)) then old(select[i]) else 0
    ensures !exits && e.comp == NO_OP ==> forall i :: 0 <= i < chunk.rows ==>
      GetValue(t, e, chunk.Row(i)) == Err(INTERNAL) && select[i] == old(select[i])
  {
    hide SubOrMul;
    var l := GetColumn(t, e.left, chunk, simd);
    if l.Exits? {
      return true;
    }
    var r := GetColumn(t, e.right, chunk, simd);
    if r.Exits? {
      return true;
    }
    var left, right := l.value, r.value;
    ghost var before := select[..];
    var n := if left.isConst && !right.isConst then right.count else left.count;
    CompareResult(e.comp, left, right, n, select, simd);
    forall i | 0 <= i < chunk.rows
      ensures GetValue(t, e, chunk.Row(i))
           == if e.comp == NO_OP then Err(INTERNAL) else Ok(BoolV(Compares(e.comp, left.At(i), right.At(i))))
    {
      RowComparison(t, e, chunk.Row(i), left.At(i), right.At(i));
    }
    assert e.comp == NO_OP ==> forall a, b :: Compares(e.comp, a, b);
    hide GetValue, Compares;
    assert forall i :: 0 <= i < chunk.rows ==> select[..][i] == select[i] && before[i] == old(select[i]);
    return false;
  }

  /** `a - 1 = 0` over eight rows: every row evaluates, but the SIMD build ends the process. */
  method SubtractionExits(t: Types, column: seq<int>) returns (scalar: bool, simd: bool)
    requires |column| == 8
    ensures !scalar && simd
    ensures var e := Comparison(EQUAL_TO, Arithmetic(SUB, Field("a", INTS), Some(Const(IntV(1)))), Const(IntV(0)));
      forall i :: 0 <= i < 8 ==> GetValue(t, e, map["a" := IntV(column[i])]).Ok?
  {
    var e := Comparison(EQUAL_TO, Arithmetic(SUB, Field("a", INTS), Some(Const(IntV(1)))), Const(IntV(0)));
    var chunk := Chunk(map["a" := column], 8);
    var select := new nat[8](_ => 1);
    scalar := Eval(t, e, chunk, select, false);
    forall i | 0 <= i < 8 ensures GetValue(t, e, map["a" := IntV(column[i])]).Ok? {
      assert chunk.Row(i) == map["a" := IntV(column[i])];
    }
    select := new nat[8](_ => 1);
    simd := Eval(t, e, chunk, select, true);
  }
}
