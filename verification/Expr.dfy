/** SQL expressions: evaluation on a tuple, and evaluation without one (constant folding). */
module Expr {
  import opened Common

  /** A value, an error code, or a dereferenced null pointer. */
  datatype Result<+T> = Ok(value: T) | Err(code: RC) | NullDereference {
    predicate IsFailure() { !Ok? }
    function PropagateFailure<U>(): Result<U>
      requires IsFailure()
    {
      if Err? then Err(code) else NullDereference
    }
    function Extract(): T
      requires Ok?
    {
      value
    }
  }

  datatype CompOp = EQUAL_TO | LESS_EQUAL | NOT_EQUAL | LESS_THAN | GREAT_EQUAL | GREAT_THAN | NO_OP

  datatype ArithOp = ADD | SUB | MUL | DIV | NEGATIVE

  datatype ConjOp = AND | OR

  datatype FuncOp = DISTANCE | VECTOR_TO_STRING | STRING_TO_VECTOR

  datatype Expr =
    | Field(name: string, attrType: AttrType)
    | Const(value: Value)
    | Cast(child: Expr, castType: AttrType)
    | Comparison(comp: CompOp, left: Expr, right: Expr)
    | Conjunction(conj: ConjOp, children: seq<Expr>)
    | Arithmetic(arith: ArithOp, left: Expr, operand: Option<Expr>)
    | Function(func: FuncOp, args: seq<Expr>)

  /** The parts of the data type classes that are not about integers: floats, strings, vectors and casts. */
  datatype Types = Types(
    compare: (Value, Value) -> int,
    castTo: (Value, AttrType) -> Result<Value>,
    arithmetic: (ArithOp, AttrType, Value, Value) -> Value,
    truth: Value -> bool,
    show: Value -> string,
    distance: (seq<real>, seq<real>, string) -> Result<real>,
    parseVector: string -> Result<Value>,
    printVector: Value -> Result<string>)

  type Tuple = map<string, Value>

  // ----- integers -----

  /** Two's-complement wrap-around to 32 bits. */
  function Wrap(x: int): int {
    (x + 0x8000_0000) % 0x1_0000_0000 - 0x8000_0000
  }

  function IntArith(op: ArithOp, a: int, b: int): int {
    match op
    case ADD => Wrap(a + b)
    case SUB => Wrap(a - b)
    case MUL => Wrap(a * b)
    case _ => Wrap(-a)
  }

  function Compare(t: Types, l: Value, r: Value): int {
    if l.IntV? && r.IntV? then CompareInt(l.n, r.n) else t.compare(l, r)
  }

  // ----- evaluation of single nodes -----

  function ValueType(e: Expr): AttrType {
    match e
    case Field(_, attrType) => attrType
    case Const(v) => TypeOf(v)
    case Cast(_, castType) => castType
    case Comparison(_, _, _) => BOOLEANS
    case Conjunction(_, _) => BOOLEANS
    case Arithmetic(op, left, operand) =>
      if operand.None? then ValueType(left)
      else if ValueType(left) == INTS && ValueType(operand.value) == INTS && op != DIV then INTS
      else FLOATS
    case Function(f, _) =>
      match f
      case DISTANCE => FLOATS
      case VECTOR_TO_STRING => CHARS
      case STRING_TO_VECTOR => VECTORS
  }

  function CastValue(t: Types, v: Value, castType: AttrType): Result<Value> {
    if castType == TypeOf(v) then Ok(v) else t.castTo(v, castType)
  }

  function CompareValue(t: Types, op: CompOp, l: Value, r: Value): Result<bool> {
    var c := Compare(t, l, r);
    match op
    case EQUAL_TO => Ok(c == 0)
    case LESS_EQUAL => Ok(c <= 0)
    case NOT_EQUAL => Ok(c != 0)
    case LESS_THAN => Ok(c < 0)
    case GREAT_EQUAL => Ok(c >= 0)
    case GREAT_THAN => Ok(c > 0)
    case NO_OP => Err(INTERNAL)
  }

  function CalcValue(t: Types, op: ArithOp, target: AttrType, l: Value, r: Value): Value {
    if target == INTS && op != DIV && l.IntV? && (op == NEGATIVE || r.IntV?)
    then IntV(IntArith(op, l.n, if op == NEGATIVE then 0 else r.n))
    else t.arithmetic(op, target, l, r)
  }

  /** The distance of two vector values, with the checks both evaluators make. */
  function Distance(t: Types, a: Value, b: Value, m: Value): Result<Value> {
    if !a.VectorV? || !b.VectorV? then Err(INVALID_ARGUMENT)
    else if |a.xs| != |b.xs| then Err(INVALID_ARGUMENT)
    else
      var d :- t.distance(a.xs, b.xs, t.show(m));
      Ok(FloatV(d))
  }

  function VectorToString(t: Types, v: Value): Result<Value> {
    if !v.VectorV? then Err(INVALID_ARGUMENT)
    else
      var s :- t.printVector(v);
      Ok(CharsV(s))
  }

  // ----- `get_value` -----

  function GetValue(t: Types, e: Expr, tuple: Tuple): Result<Value>
    decreases e, 1
  {
    match e
    case Field(name, _) => if name in tuple then Ok(tuple[name]) else Err(NOTFOUND)
    case Const(v) => Ok(v)
    case Cast(child, castType) =>
      var v :- GetValue(t, child, tuple);
      CastValue(t, v, castType)
    case Comparison(op, left, right) =>
      var l :- GetValue(t, left, tuple);
      var r :- GetValue(t, right, tuple);
      var b :- CompareValue(t, op, l, r);
      Ok(BoolV(b))
    case Conjunction(op, children) =>
      if children == [] then Ok(BoolV(true)) else GetConjunction(t, op, children, tuple)
    case Arithmetic(op, left, operand) =>
      var l :- GetValue(t, left, tuple);
      if operand.None? then NullDereference
      else
        var r :- GetValue(t, operand.value, tuple);
        Ok(CalcValue(t, op, ValueType(e), l, r))
    case Function(f, args) =>
      match f
      case DISTANCE =>
        if |args| != 3 then Err(INVALID_ARGUMENT)
        else
          var a :- GetValue(t, args[0], tuple);
          if !a.VectorV? then Err(INVALID_ARGUMENT)
          else
            var b :- GetValue(t, args[1], tuple);
            if !b.VectorV? then Err(INVALID_ARGUMENT)
            else if |a.xs| != |b.xs| then Err(INVALID_ARGUMENT)
            else
              var m :- GetValue(t, args[2], tuple);
              Distance(t, a, b, m)
      case STRING_TO_VECTOR =>
        if |args| != 1 then Err(INVALID_ARGUMENT)
        else
          var v :- GetValue(t, args[0], tuple);
          t.parseVector(t.show(v))
      case VECTOR_TO_STRING =>
        if |args| != 1 then Err(INVALID_ARGUMENT)
        else
          var v :- GetValue(t, args[0], tuple);
          VectorToString(t, v)
  }

  /** Children are evaluated until one decides the result. */
  function GetConjunction(t: Types, op: ConjOp, children: seq<Expr>, tuple: Tuple): Result<Value>
    decreases children, 0
  {
    if children == [] then Ok(BoolV(op == AND))
    else
      var v :- GetValue(t, children[0], tuple);
      if t.truth(v) == (op == OR) then Ok(BoolV(t.truth(v))) else GetConjunction(t, op, children[1..], tuple)
  }

  // ----- `try_get_value` -----

  function TryGetValue(t: Types, e: Expr): Result<Value>
    decreases e, 1
  {
    match e
    case Field(_, _) => Err(UNIMPLEMENTED)
    case Const(v) => Ok(v)
    case Cast(child, castType) =>
      var v :- TryGetValue(t, child);
      CastValue(t, v, castType)
    case Comparison(op, left, right) =>
      if left.Const? && right.Const? then
        var b :- CompareValue(t, op, left.value, right.value);
        Ok(BoolV(b))
      else Err(INVALID_ARGUMENT)
    case Conjunction(_, _) => Err(UNIMPLEMENTED)
    case Arithmetic(op, left, operand) =>
      var l :- TryGetValue(t, left);
      if operand.None? then Ok(CalcValue(t, op, ValueType(e), l, NoValue))
      else
        var r :- TryGetValue(t, operand.value);
        Ok(CalcValue(t, op, ValueType(e), l, r))
    case Function(f, args) =>
      var vs :- TryGetAll(t, args);
      match f
      case DISTANCE => if |vs| != 3 then Err(INVALID_ARGUMENT) else Distance(t, vs[0], vs[1], vs[2])
      case STRING_TO_VECTOR => if |vs| != 1 then Err(INVALID_ARGUMENT) else t.parseVector(t.show(vs[0]))
      case VECTOR_TO_STRING => if |vs| != 1 then Err(INVALID_ARGUMENT) else VectorToString(t, vs[0])
  }

  function TryGetAll(t: Types, es: seq<Expr>): (r: Result<seq<Value>>)
    ensures r.Ok? ==> |r.value| == |es|
    decreases es, 0
  {
    if es == [] then Ok([])
    else
      var v :- TryGetValue(t, es[0]);
      var vs :- TryGetAll(t, es[1..]);
      Ok([v] + vs)
  }

  // ----- folding is sound, exactly when no operand is missing -----

  /** Every arithmetic node outside comparisons and conjunctions has both operands. */
  predicate Complete(e: Expr)
    decreases e, 1
  {
    match e
    case Cast(child, _) => Complete(child)
    case Arithmetic(_, left, operand) => operand.Some? && Complete(left) && Complete(operand.value)
    case Function(_, args) => AllComplete(args)
    case _ => true
  }

  predicate AllComplete(es: seq<Expr>)
    decreases es, 0
  {
    es == [] || (Complete(es[0]) && AllComplete(es[1..]))
  }

  lemma {:induction false} FoldedValue(t: Types, e: Expr, tuple: Tuple)
    requires TryGetValue(t, e).Ok?
    ensures GetValue(t, e, tuple) == if Complete(e) then TryGetValue(t, e) else NullDereference
    decreases e, 1
  {
    match e
    case Const(_) =>
    case Cast(child, _) => FoldedValue(t, child, tuple);
    case Comparison(_, _, _) =>
    case Arithmetic(_, left, operand) =>
      FoldedValue(t, left, tuple);
      if operand.Some? {
        FoldedValue(t, operand.value, tuple);
      }
    case Function(f, args) =>
      FoldedArgs(t, args, tuple);
      FoldedFunction(t, e, tuple);
  }

  /** Argument by argument: the first incomplete one is where evaluation stops. */
  lemma {:induction false} FoldedArgs(t: Types, es: seq<Expr>, tuple: Tuple)
    requires TryGetAll(t, es).Ok?
    ensures forall i :: 0 <= i < |es| ==>
      && TryGetValue(t, es[i]) == Ok(TryGetAll(t, es).value[i])
      && GetValue(t, es[i], tuple) == if Complete(es[i]) then TryGetValue(t, es[i]) else NullDereference
    ensures AllComplete(es) <==> forall i :: 0 <= i < |es| ==> Complete(es[i])
    decreases es, 0
  {
    if es != [] {
      FoldedValue(t, es[0], tuple);
      FoldedArgs(t, es[1..], tuple);
      var vs, rest := TryGetAll(t, es).value, TryGetAll(t, es[1..]).value;
      assert vs == [TryGetValue(t, es[0]).value] + rest;
      forall i | 0 < i < |es|
        ensures TryGetValue(t, es[i]) == Ok(vs[i])
        ensures GetValue(t, es[i], tuple) == if Complete(es[i]) then TryGetValue(t, es[i]) else NullDereference
      {
        assert es[i] == es[1..][i - 1];
      }
      assert AllComplete(es[1..]) <==> forall i :: 0 < i < |es| ==> Complete(es[i]) by {
        assert forall i :: 0 <= i < |es[1..]| ==> es[1..][i] == es[i + 1];
        assert forall i :: 0 < i < |es| ==> es[i] == es[1..][i - 1];
      }
    }
  }

  lemma FoldedFunction(t: Types, e: Expr, tuple: Tuple)
    requires e.Function? && TryGetValue(t, e).Ok? && TryGetAll(t, e.args).Ok?
    requires forall i :: 0 <= i < |e.args| ==>
      && TryGetValue(t, e.args[i]) == Ok(TryGetAll(t, e.args).value[i])
      && GetValue(t, e.args[i], tuple) == if Complete(e.args[i]) then TryGetValue(t, e.args[i]) else NullDereference
    requires AllComplete(e.args) <==> forall i :: 0 <= i < |e.args| ==> Complete(e.args[i])
    ensures GetValue(t, e, tuple) == if Complete(e) then TryGetValue(t, e) else NullDereference
  {
    var args, vs := e.args, TryGetAll(t, e.args).value;
    match e.func
    case DISTANCE =>
      assert vs[0].VectorV? && vs[1].VectorV? && |vs[0].xs| == |vs[1].xs|;
      assert AllComplete(args) <==> Complete(args[0]) && Complete(args[1]) && Complete(args[2]);
    case STRING_TO_VECTOR =>
      assert AllComplete(args) <==> Complete(args[0]);
    case VECTOR_TO_STRING =>
      assert AllComplete(args) <==> Complete(args[0]);
  }

  /** An expression that folds to a value has that value on every tuple exactly when no operand is missing. */
  lemma FoldingSound(t: Types, e: Expr)
    requires TryGetValue(t, e).Ok?
    ensures Complete(e) <==> forall tuple :: GetValue(t, e, tuple) == TryGetValue(t, e)
  {
    hide GetValue, TryGetValue, Complete;
    if Complete(e) {
      forall tuple ensures GetValue(t, e, tuple) == TryGetValue(t, e) {
        FoldedValue(t, e, tuple);
      }
    } else {
      var tuple: Tuple := map[];
      FoldedValue(t, e, tuple);
      assert GetValue(t, e, tuple) != TryGetValue(t, e);
    }
  }

  /** A folded negation: constant folding gives -5, row evaluation follows a null pointer. */
  lemma NegationFoldsButDoesNotEvaluate(t: Types, tuple: Tuple)
    ensures var e := Arithmetic(NEGATIVE, Const(IntV(5)), None);
      TryGetValue(t, e) == Ok(IntV(-5)) && GetValue(t, e, tuple) == NullDereference
  {
    assert ValueType(Arithmetic(NEGATIVE, Const(IntV(5)), None)) == INTS;
  }
}
