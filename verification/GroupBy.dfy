/** Hash group-by: aggregate states per group, filled chunk by chunk and scanned chunk by chunk. */
module GroupBy {
  import opened Common

  datatype AggrType = COUNT | SUM | AVG | MAX | MIN

  /** An aggregate and the type of its argument. */
  datatype Aggr = Aggr(kind: AggrType, child: AttrType)

  datatype AggrState =
    | SumInt(sum: int) | SumFloat(fsum: real)
    | Count(count: int)
    | AvgInt(asum: int, acount: int) | AvgFloat(afsum: real, afcount: int)

  // ----- one aggregate -----

  /** The combinations `create_aggregate_state` knows. */
  predicate Supported(a: Aggr) {
    a.kind == COUNT || ((a.kind == SUM || a.kind == AVG) && (a.child == INTS || a.child == FLOATS))
  }

  function Create(a: Aggr): AggrState
    requires Supported(a)
  {
    match a.kind
    case COUNT => Count(0)
    case SUM => if a.child == INTS then SumInt(0) else SumFloat(0.0)
    case _ => if a.child == INTS then AvgInt(0, 0) else AvgFloat(0.0, 0)
  }

  /** The argument has the declared type; COUNT takes anything. */
  predicate Fits(a: Aggr, v: Value) {
    Supported(a) && (a.kind == COUNT || (if a.child == INTS then v.IntV? else v.FloatV?))
  }

  predicate StateOf(a: Aggr, s: AggrState) {
    && Supported(a)
    && match a.kind
       case COUNT => s.Count?
       case SUM => if a.child == INTS then s.SumInt? else s.SumFloat?
       case _ => if a.child == INTS then s.AvgInt? else s.AvgFloat?
  }

  /** `aggregate_state_update_by_value`. */
  function Update(a: Aggr, s: AggrState, v: Value): (r: AggrState)
    requires StateOf(a, s) && Fits(a, v)
    ensures StateOf(a, r)
  {
    match s
    case SumInt(t) => SumInt(t + v.n)
    case SumFloat(t) => SumFloat(t + v.x)
    case Count(n) => Count(n + 1)
    case AvgInt(t, n) => AvgInt(t + v.n, n + 1)
    case AvgFloat(t, n) => AvgFloat(t + v.x, n + 1)
  }

  function UpdateAll(a: Aggr, s: AggrState, vs: seq<Value>): (r: AggrState)
    requires StateOf(a, s) && forall i :: 0 <= i < |vs| ==> Fits(a, vs[i])
    ensures StateOf(a, r)
  {
    if vs == [] then s else Update(a, UpdateAll(a, s, vs[..|vs| - 1]), vs[|vs| - 1])
  }

  /** `aggregate_state_update_by_column`: one pass over the column, the count added at the end. */
  method UpdateByColumn(a: Aggr, s: AggrState, column: seq<Value>) returns (r: AggrState)
    requires StateOf(a, s) && forall i :: 0 <= i < |column| ==> Fits(a, column[i])
    ensures r == UpdateAll(a, s, column)
  {
    if s.Count? {
      CountAll(a, s, column);
      return Count(s.count + |column|);
    }
    var isum, fsum := 0, 0.0;
    match s {
      case SumInt(t) => isum := t;
      case SumFloat(t) => fsum := t;
      case AvgInt(t, _) => isum := t;
      case AvgFloat(t, _) => fsum := t;
    }
    r := s;
    for i := 0 to |column|
      invariant StateOf(a, r) && UpdateAll(a, s, column[..i]) == WithSum(s, isum, fsum, i)
      invariant r == s
    {
      assert column[..i + 1][..i] == column[..i];
      if a.child == INTS {
        isum := isum + column[i].n;
      } else {
        fsum := fsum + column[i].x;
      }
    }
    assert column[..|column|] == column;
    r := WithSum(s, isum, fsum, |column|);
  }

  /** The state with the given sum and `n` more values counted. */
  function WithSum(s: AggrState, isum: int, fsum: real, n: nat): AggrState {
    match s
    case SumInt(_) => SumInt(isum)
    case SumFloat(_) => SumFloat(fsum)
    case Count(c) => Count(c + n)
    case AvgInt(_, c) => AvgInt(isum, c + n)
    case AvgFloat(_, c) => AvgFloat(fsum, c + n)
  }

  lemma {:induction false} CountAll(a: Aggr, s: AggrState, vs: seq<Value>)
    requires StateOf(a, s) && s.Count? && forall i :: 0 <= i < |vs| ==> Fits(a, vs[i])
    ensures UpdateAll(a, s, vs) == Count(s.count + |vs|)
  {
    if vs != [] {
      CountAll(a, s, vs[..|vs| - 1]);
    }
  }

  // ----- rows -----

  type Key = seq<Value>

  datatype Row = Row(key: Key, args: seq<Value>)

  ghost predicate RowFits(aggrs: seq<Aggr>, r: Row) {
    |r.args| == |aggrs| && forall a :: 0 <= a < |aggrs| ==> Fits(aggrs[a], r.args[a])
  }

  ghost predicate RowsFit(aggrs: seq<Aggr>, rows: seq<Row>) {
    forall i :: 0 <= i < |rows| ==> RowFits(aggrs, rows[i])
  }

  /** The arguments of aggregate `a` in the rows of group `key`, in arrival order. */
  ghost function GroupArgs(aggrs: seq<Aggr>, rows: seq<Row>, key: Key, a: nat): (vs: seq<Value>)
    requires RowsFit(aggrs, rows) && a < |aggrs|
    ensures forall i :: 0 <= i < |vs| ==> Fits(aggrs[a], vs[i])
  {
    if rows == [] then []
    else
      var last := rows[|rows| - 1];
      assert RowFits(aggrs, last);
      GroupArgs(aggrs, rows[..|rows| - 1], key, a) + if last.key == key then [last.args[a]] else []
  }

  ghost predicate HasKey(rows: seq<Row>, key: Key) {
    exists i :: 0 <= i < |rows| && rows[i].key == key
  }

  ghost predicate AllSupported(aggrs: seq<Aggr>) {
    forall a :: 0 <= a < |aggrs| ==> Supported(aggrs[a])
  }

  /** One entry per distinct key; each state is the fold of its group's arguments in arrival order. */
  ghost predicate Represents(aggrs: seq<Aggr>, table: map<Key, seq<AggrState>>, rows: seq<Row>) {
    && RowsFit(aggrs, rows)
    && (rows != [] ==> AllSupported(aggrs))
    && (forall key :: key in table <==> HasKey(rows, key))
    && (forall key :: key in table ==> GroupStates(aggrs, rows, key, table[key]))
  }

  ghost predicate GroupStates(aggrs: seq<Aggr>, rows: seq<Row>, key: Key, states: seq<AggrState>)
    requires RowsFit(aggrs, rows)
  {
    && |states| == |aggrs|
    && AllSupported(aggrs)
    && forall a :: 0 <= a < |aggrs| ==>
         states[a] == UpdateAll(aggrs[a], Create(aggrs[a]), GroupArgs(aggrs, rows, key, a))
  }

  /** The table is determined by the rows alone. */
  lemma RepresentsUnique(aggrs: seq<Aggr>, t: map<Key, seq<AggrState>>, u: map<Key, seq<AggrState>>, rows: seq<Row>)
    requires Represents(aggrs, t, rows) && Represents(aggrs, u, rows)
    ensures t == u
  {
    forall key | key in t ensures key in u && t[key] == u[key] {
      assert HasKey(rows, key);
      assert GroupStates(aggrs, rows, key, t[key]) && GroupStates(aggrs, rows, key, u[key]);
      assert t[key] == u[key];
    }
    forall key | key in u ensures key in t {
      assert HasKey(rows, key);
    }
  }

  /** A row changes only its own group. */
  lemma OtherGroup(aggrs: seq<Aggr>, rows: seq<Row>, r: Row, key: Key, states: seq<AggrState>)
    requires RowsFit(aggrs, rows) && RowFits(aggrs, r) && r.key != key
    requires GroupStates(aggrs, rows, key, states)
    ensures RowsFit(aggrs, rows + [r]) && GroupStates(aggrs, rows + [r], key, states)
  {
    forall a | 0 <= a < |aggrs|
      ensures GroupArgs(aggrs, rows + [r], key, a) == GroupArgs(aggrs, rows, key, a)
    {
      assert (rows + [r])[..|rows|] == rows;
    }
  }

  lemma OwnGroup(aggrs: seq<Aggr>, rows: seq<Row>, r: Row, before: seq<AggrState>, after: seq<AggrState>)
    requires RowsFit(aggrs, rows) && RowFits(aggrs, r) && AllSupported(aggrs)
    requires GroupStates(aggrs, rows, r.key, before) && |after| == |aggrs|
    requires forall a :: 0 <= a < |aggrs| ==>
      StateOf(aggrs[a], before[a]) && after[a] == Update(aggrs[a], before[a], r.args[a])
    ensures RowsFit(aggrs, rows + [r]) && GroupStates(aggrs, rows + [r], r.key, after)
  {
    forall a | 0 <= a < |aggrs|
      ensures after[a] == UpdateAll(aggrs[a], Create(aggrs[a]), GroupArgs(aggrs, rows + [r], r.key, a))
    {
      assert (rows + [r])[..|rows|] == rows;
      var vs := GroupArgs(aggrs, rows, r.key, a);
      var vs' := vs + [r.args[a]];
      assert GroupArgs(aggrs, rows + [r], r.key, a) == vs';
      assert vs'[..|vs|] == vs;
    }
  }

  lemma {:induction false} NewGroup(aggrs: seq<Aggr>, rows: seq<Row>, key: Key, a: nat)
    requires RowsFit(aggrs, rows) && a < |aggrs| && !HasKey(rows, key)
    ensures GroupArgs(aggrs, rows, key, a) == []
  {
    if rows != [] {
      assert rows[|rows| - 1].key != key;
      var init := rows[..|rows| - 1];
      assert forall i :: 0 <= i < |init| ==> init[i] == rows[i];
      NewGroup(aggrs, init, key, a);
    }
  }

  /** A group without rows has fresh states. */
  lemma FreshStates(aggrs: seq<Aggr>, rows: seq<Row>, key: Key, states: seq<AggrState>)
    requires RowsFit(aggrs, rows) && AllSupported(aggrs) && !HasKey(rows, key)
    requires |states| == |aggrs| && forall a :: 0 <= a < |aggrs| ==> states[a] == Create(aggrs[a])
    ensures GroupStates(aggrs, rows, key, states)
  {
    forall a | 0 <= a < |aggrs| ensures GroupArgs(aggrs, rows, key, a) == [] {
      NewGroup(aggrs, rows, key, a);
    }
  }

  lemma StatesTyped(aggrs: seq<Aggr>, rows: seq<Row>, key: Key, states: seq<AggrState>)
    requires RowsFit(aggrs, rows) && GroupStates(aggrs, rows, key, states)
    ensures AllSupported(aggrs) && |states| == |aggrs| && forall a :: 0 <= a < |aggrs| ==> StateOf(aggrs[a], states[a])
  {
  }

  // ----- chunks -----

  /** Columns of equal length. */
  datatype Chunk = Chunk(columns: seq<seq<Value>>) {
    function Rows(): nat {
      if columns == [] then 0 else |columns[0]|
    }

    ghost predicate Rectangular() {
      forall j :: 0 <= j < |columns| ==> |columns[j]| == Rows()
    }

    function RowAt(i: nat): seq<Value>
      requires Rectangular() && i < Rows()
    {
      seq(|columns|, j requires 0 <= j < |columns| => columns[j][i])
    }
  }

  /** The columns of the aggregate chunk have the types the supported aggregates declare. */
  ghost predicate ChunkFits(aggrs: seq<Aggr>, args: Chunk) {
    && |args.columns| == |aggrs|
    && args.Rectangular()
    && forall a, i :: 0 <= a < |aggrs| && 0 <= i < args.Rows() && Supported(aggrs[a]) ==> Fits(aggrs[a], args.columns[a][i])
  }

  ghost function ChunkRows(groups: Chunk, args: Chunk): seq<Row>
    requires groups.Rectangular() && args.Rectangular() && groups.Rows() == args.Rows()
  {
    seq(groups.Rows(), i requires 0 <= i < groups.Rows() => Row(groups.RowAt(i), args.RowAt(i)))
  }

  // ----- comparing keys -----

  /** A key vector of the given column types. A CHARS value ends at its first NUL when it is made. */
  ghost predicate HasTypes(key: Key, types: seq<AttrType>) {
    && |key| == |types|
    && forall i :: 0 <= i < |key| ==> TypeOf(key[i]) == types[i] && (key[i].CharsV? ==> '\0' !in key[i].s)
  }

  /** The types of group-by columns that `Value::compare` takes. */
  ghost predicate Groupable(types: seq<AttrType>) {
    forall i :: 0 <= i < |types| ==> types[i] == INTS || types[i] == FLOATS || types[i] == CHARS
  }

  ghost predicate AllComparable(lhs: Key, rhs: Key) {
    |lhs| == |rhs| ==> forall i :: 0 <= i < |lhs| ==> Comparable(rhs[i], lhs[i])
  }

  /** What `VectorEqual` answers: no position compares different. */
  ghost predicate SameKey(lhs: Key, rhs: Key)
    requires AllComparable(lhs, rhs)
  {
    |lhs| == |rhs| && forall i :: 0 <= i < |lhs| ==> CompareValues(rhs[i], lhs[i]) == 0
  }

  method VectorEqual(lhs: Key, rhs: Key) returns (equal: bool)
    requires AllComparable(lhs, rhs)
    ensures equal <==> SameKey(lhs, rhs)
  {
    if |lhs| != |rhs| {
      return false;
    }
    for i := 0 to |lhs|
      invariant forall k :: 0 <= k < i ==> CompareValues(rhs[k], lhs[k]) == 0
    {
      if CompareValues(rhs[i], lhs[i]) != 0 {
        return false;
      }
    }
    return true;
  }

  lemma TypedComparable(lhs: Key, rhs: Key, types: seq<AttrType>)
    requires Groupable(types) && HasTypes(lhs, types) && HasTypes(rhs, types)
    ensures AllComparable(lhs, rhs)
  {
    forall i | 0 <= i < |lhs| ensures Comparable(rhs[i], lhs[i]) {
      assert types[i] == INTS || types[i] == FLOATS || types[i] == CHARS;
    }
  }

  /** Integers and strings without NUL compare equal only when they are. */
  lemma ExactValue(a: Value, b: Value)
    requires TypeOf(a) == TypeOf(b) && (a.IntV? || (a.CharsV? && '\0' !in a.s && '\0' !in b.s))
    ensures CompareValues(a, b) == 0 <==> a == b
  {
    if a.CharsV? {
      CompareStringZero(a.s, b.s);
      NoNulKept(a.s);
      NoNulKept(b.s);
    }
  }

  lemma ExactKeys(lhs: Key, rhs: Key, types: seq<AttrType>)
    requires Groupable(types) && FLOATS !in types && HasTypes(lhs, types) && HasTypes(rhs, types)
    ensures AllComparable(lhs, rhs) && (SameKey(lhs, rhs) <==> lhs == rhs)
  {
    TypedComparable(lhs, rhs, types);
    forall i | 0 <= i < |lhs| ensures CompareValues(rhs[i], lhs[i]) == 0 <==> rhs[i] == lhs[i] {
      assert types[i] in types;
      ExactValue(rhs[i], lhs[i]);
    }
  }

  /** Comparing the keys of a table tells exactly whether they are equal. */
  ghost predicate DecidesEquality(types: seq<AttrType>) {
    forall lhs, rhs :: HasTypes(lhs, types) && HasTypes(rhs, types) && AllComparable(lhs, rhs)
      ==> (SameKey(lhs, rhs) <==> lhs == rhs)
  }

  function ZeroOf(t: AttrType): Value {
    match t
    case INTS => IntV(0)
    case FLOATS => FloatV(0.0)
    case _ => CharsV("")
  }

  /** Key comparison decides equality exactly when no key column is a float. */
  lemma DecidesEqualityIff(types: seq<AttrType>)
    requires Groupable(types)
    ensures DecidesEquality(types) <==> FLOATS !in types
  {
    if FLOATS !in types {
      forall lhs, rhs | HasTypes(lhs, types) && HasTypes(rhs, types)
        ensures AllComparable(lhs, rhs) && (SameKey(lhs, rhs) <==> lhs == rhs)
      {
        ExactKeys(lhs, rhs, types);
      }
    } else {
      var j :| 0 <= j < |types| && types[j] == FLOATS;
      var lhs := seq(|types|, i requires 0 <= i < |types| => ZeroOf(types[i]));
      var rhs := lhs[j := FloatV(EPSILON)];
      TypedComparable(lhs, rhs, types);
      forall i | 0 <= i < |types| ensures CompareValues(rhs[i], lhs[i]) == 0 {
        assert i != j ==> rhs[i] == lhs[i];
      }
      assert SameKey(lhs, rhs) && lhs[j] != rhs[j];
    }
  }

  /** Two different float keys that the table takes for one, and three of which only neighbours are. */
  lemma NearFloatsAreOneKey()
    ensures var a, b := [FloatV(0.0)], [FloatV(0.0000001)]; AllComparable(a, b) && SameKey(a, b) && a != b
    ensures var a, b, c := [FloatV(0.0)], [FloatV(0.000001)], [FloatV(0.000002)];
      && AllComparable(a, b) && AllComparable(b, c) && AllComparable(a, c)
      && SameKey(a, b) && SameKey(b, c) && !SameKey(a, c)
  {
    assert CompareValues([FloatV(0.000002)][0], [FloatV(0.0)][0]) == 1;
    assert [FloatV(0.0)][0] != [FloatV(0.0000001)][0];
  }

  // ----- the hash map -----

  /** A hash of keys, and the entries a lookup visits, in order, after the keys inserted so far. */
  datatype Buckets = Buckets(hash: Key -> int, chain: (seq<Key>, Key) -> seq<Key>) {
    /** A lookup visits entries of the map only, and all whose hash is that of the key. */
    ghost predicate Valid() {
      && (forall keys, key, k :: k in chain(keys, key) ==> k in keys)
      && (forall keys, key, k {:trigger k in keys, chain(keys, key)} ::
            k in keys && hash(k) == hash(key) ==> k in chain(keys, key))
    }

    /** The key of an entry is taken for `key`. */
    ghost predicate Matches(entry: Key, key: Key) {
      hash(entry) == hash(key) && AllComparable(entry, key) && SameKey(entry, key)
    }

    /** The entry a lookup stops at. */
    ghost function FirstMatch(visited: seq<Key>, key: Key): (r: Option<Key>)
      ensures r.Some? ==> r.value in visited && Matches(r.value, key)
      ensures r.None? ==> forall k :: k in visited ==> !Matches(k, key)
    {
      if visited == [] then None
      else if Matches(visited[0], key) then Some(visited[0])
      else FirstMatch(visited[1..], key)
    }

    ghost function Lookup(keys: seq<Key>, key: Key): Option<Key> {
      FirstMatch(chain(keys, key), key)
    }
  }

  /** The keys of the rows, each once, in order of first appearance. */
  ghost function KeysOf(rows: seq<Row>): (keys: seq<Key>)
    ensures forall k :: k in keys <==> HasKey(rows, k)
  {
    if rows == [] then []
    else
      var init, last := rows[..|rows| - 1], rows[|rows| - 1];
      HasKeySnoc(init, last);
      assert init + [last] == rows;
      if last.key in KeysOf(init) then KeysOf(init) else KeysOf(init) + [last.key]
  }

  lemma HasKeySnoc(rows: seq<Row>, r: Row)
    ensures forall k :: HasKey(rows + [r], k) <==> HasKey(rows, k) || k == r.key
  {
    var more := rows + [r];
    forall k ensures HasKey(more, k) <==> HasKey(rows, k) || k == r.key {
      if HasKey(rows, k) {
        var i :| 0 <= i < |rows| && rows[i].key == k;
        assert more[i].key == k;
      }
      if HasKey(more, k) && k != r.key {
        var i :| 0 <= i < |more| && more[i].key == k;
        assert rows[i].key == k;
      }
      assert more[|rows|] == r;
    }
  }

  /** The rows with the key of the entry each of them went to. */
  ghost function Placed(b: Buckets, rows: seq<Row>): (placed: seq<Row>)
    ensures |placed| == |rows| && forall i :: 0 <= i < |rows| ==> placed[i].args == rows[i].args
  {
    if rows == [] then []
    else
      var placed, last := Placed(b, rows[..|rows| - 1]), rows[|rows| - 1];
      var entry := b.Lookup(KeysOf(placed), last.key);
      placed + [Row(if entry.Some? then entry.value else last.key, last.args)]
  }

  lemma PlacedSnoc(b: Buckets, rows: seq<Row>, r: Row)
    ensures var placed := Placed(b, rows);
      var entry := b.Lookup(KeysOf(placed), r.key);
      Placed(b, rows + [r]) == placed + [Row(if entry.Some? then entry.value else r.key, r.args)]
  {
    assert (rows + [r])[..|rows|] == rows;
  }

  ghost predicate KeysTyped(types: seq<AttrType>, rows: seq<Row>) {
    forall i :: 0 <= i < |rows| ==> HasTypes(rows[i].key, types)
  }

  /** Each row compares equal to the key of its entry, and no two entries are taken for one another. */
  ghost predicate WellPlaced(b: Buckets, rows: seq<Row>, placed: seq<Row>) {
    && |placed| == |rows|
    && (forall i :: 0 <= i < |rows| ==> b.Matches(placed[i].key, rows[i].key))
    && (forall k, l :: HasKey(placed, k) && HasKey(placed, l) && k != l ==> !b.Matches(k, l))
  }

  lemma MatchesSelf(b: Buckets, key: Key, types: seq<AttrType>)
    requires Groupable(types) && HasTypes(key, types)
    ensures b.Matches(key, key)
  {
    TypedComparable(key, key, types);
    forall i | 0 <= i < |key| ensures CompareValues(key[i], key[i]) == 0 {
      if key[i].CharsV? {
        CompareStringZero(key[i].s, key[i].s);
      }
    }
  }

  lemma MatchesSymmetric(b: Buckets, k: Key, l: Key)
    requires b.Matches(k, l)
    ensures b.Matches(l, k)
  {
    forall i | 0 <= i < |k| ensures Comparable(k[i], l[i]) && CompareValues(k[i], l[i]) == 0 {
      assert Comparable(l[i], k[i]) && CompareValues(l[i], k[i]) == 0;
      if k[i].CharsV? {
        CompareStringZero(k[i].s, l[i].s);
        CompareStringZero(l[i].s, k[i].s);
      }
    }
  }

  /** Whatever the key types and the buckets: rows are with their equals, and entries apart. */
  lemma {:induction false} PlacedWell(b: Buckets, rows: seq<Row>, types: seq<AttrType>)
    requires b.Valid() && Groupable(types) && KeysTyped(types, rows)
    ensures KeysTyped(types, Placed(b, rows)) && WellPlaced(b, rows, Placed(b, rows))
  {
    if rows != [] {
      hide Buckets.Valid, Buckets.Lookup, WellPlaced, Groupable, HasTypes, Placed, KeysOf;
      var init, last := rows[..|rows| - 1], rows[|rows| - 1];
      assert init + [last] == rows;
      PlacedWell(b, init, types);
      PlacedSnoc(b, init, last);
      PlacedOne(b, init, Placed(b, init), last, types);
    }
  }

  lemma PlacedOne(b: Buckets, rows: seq<Row>, placed: seq<Row>, r: Row, types: seq<AttrType>)
    requires b.Valid() && Groupable(types) && HasTypes(r.key, types)
    requires KeysTyped(types, placed) && WellPlaced(b, rows, placed)
    ensures var entry := b.Lookup(KeysOf(placed), r.key);
      var more := placed + [Row(if entry.Some? then entry.value else r.key, r.args)];
      KeysTyped(types, more) && WellPlaced(b, rows + [r], more)
  {
    hide HasTypes, Groupable;
    var keys := KeysOf(placed);
    var entry := b.Lookup(keys, r.key);
    var key := if entry.Some? then entry.value else r.key;
    var more := placed + [Row(key, r.args)];
    HasKeySnoc(placed, Row(key, r.args));
    if entry.Some? {
      assert entry.value in keys;
      var i :| 0 <= i < |placed| && placed[i].key == entry.value;
      assert HasTypes(key, types);
      assert b.Matches(key, r.key);
    } else {
      MatchesSelf(b, r.key, types);
      forall k | HasKey(placed, k) ensures !b.Matches(k, r.key) && !b.Matches(r.key, k) {
        NoMatchAmong(b, keys, r.key, k);
        if b.Matches(r.key, k) {
          MatchesSymmetric(b, r.key, k);
        }
      }
    }
    hide Buckets.Matches, Buckets.Lookup;
    forall i | 0 <= i < |more| ensures b.Matches(more[i].key, (rows + [r])[i].key) && HasTypes(more[i].key, types) {
      if i < |placed| {
        assert more[i] == placed[i] && (rows + [r])[i] == rows[i];
      }
    }
  }

  lemma NoMatchAmong(b: Buckets, keys: seq<Key>, key: Key, k: Key)
    requires b.Valid() && b.Lookup(keys, key).None? && k in keys
    ensures !b.Matches(k, key)
  {
    if b.hash(k) == b.hash(key) {
      assert k in b.chain(keys, key);
    }
  }

  /** Without float columns every row goes to the entry of its own key. */
  lemma {:induction false} PlacedExactly(b: Buckets, rows: seq<Row>, types: seq<AttrType>)
    requires b.Valid() && Groupable(types) && FLOATS !in types && KeysTyped(types, rows)
    ensures Placed(b, rows) == rows
  {
    PlacedWell(b, rows, types);
    var placed := Placed(b, rows);
    forall i | 0 <= i < |rows| ensures placed[i] == rows[i] {
      ExactKeys(placed[i].key, rows[i].key, types);
    }
  }

  class AggregateTable {
    const aggrs: seq<Aggr>
    const buckets: Buckets
    ghost const types: seq<AttrType>  // of the group-by columns
    var table: map<Key, seq<AggrState>>
    var order: seq<Key>               // the keys in the order they were inserted
    ghost var rows: seq<Row>          // the rows added so far, in arrival order

    ghost predicate Valid()
      reads this
    {
      && buckets.Valid() && Groupable(types) && KeysTyped(types, rows)
      && order == KeysOf(Placed(buckets, rows))
      && Represents(aggrs, table, Placed(buckets, rows))
    }

    constructor (aggrs: seq<Aggr>, buckets: Buckets, ghost types: seq<AttrType>)
      requires buckets.Valid() && Groupable(types)
      ensures Valid() && rows == [] && this.aggrs == aggrs && this.buckets == buckets && this.types == types
    {
      this.aggrs, this.buckets, this.types, table, order, rows := aggrs, buckets, types, map[], [], [];
    }

    /** The lookup of the hash map: the first entry visited whose hash and key compare equal. */
    method Find(key: Key) returns (entry: Option<Key>)
      requires Valid() && HasTypes(key, types)
      ensures entry == buckets.Lookup(order, key)
      ensures entry.Some? ==> entry.value in table && buckets.Matches(entry.value, key)
      ensures entry.None? ==> forall k :: k in table ==> !buckets.Matches(k, key)
      ensures FLOATS !in types ==> entry == if key in table then Some(key) else None
    {
      var visited := buckets.chain(order, key);
      PlacedWell(buckets, rows, types);
      entry := Visit(visited, key);
      if entry.None? {
        forall k | k in table ensures !buckets.Matches(k, key) {
          assert k in order;
          NoMatchAmong(buckets, order, key, k);
        }
      }
      if FLOATS !in types {
        MatchesSelf(buckets, key, types);
        if entry.Some? {
          KeysAreTyped(entry.value);
          ExactKeys(entry.value, key, types);
        }
      }
    }

    lemma KeysAreTyped(k: Key)
      requires Valid() && k in order
      ensures HasTypes(k, types)
    {
      PlacedWell(buckets, rows, types);
      var i :| 0 <= i < |rows| && Placed(buckets, rows)[i].key == k;
    }

    method Visit(visited: seq<Key>, key: Key) returns (entry: Option<Key>)
      requires Valid() && HasTypes(key, types) && forall k :: k in visited ==> k in order
      ensures entry == buckets.FirstMatch(visited, key)
    {
      for i := 0 to |visited|
        invariant buckets.FirstMatch(visited, key) == buckets.FirstMatch(visited[i..], key)
      {
        KeysAreTyped(visited[i]);
        TypedComparable(visited[i], key, types);
        var equal := VectorEqual(visited[i], key);
        if buckets.hash(visited[i]) == buckets.hash(key) && equal {
          return Some(visited[i]);
        }
        assert visited[i..][1..] == visited[i + 1..];
      }
      return None;
    }

    /** Fresh states for a new group; none when some aggregate is not supported. */
    method CreateStates() returns (rc: RC, states: seq<AggrState>)
      ensures rc == if AllSupported(aggrs) then SUCCESS else INTERNAL
      ensures rc == SUCCESS ==> |states| == |aggrs| && forall a :: 0 <= a < |aggrs| ==> states[a] == Create(aggrs[a])
    {
      states := [];
      for j := 0 to |aggrs|
        invariant |states| == j
        invariant forall a :: 0 <= a < j ==> Supported(aggrs[a]) && states[a] == Create(aggrs[a])
      {
        if !Supported(aggrs[j]) {
          return INTERNAL, states;
        }
        states := states + [Create(aggrs[j])];
      }
      rc := SUCCESS;
    }

    /** The row goes to the entry its key is taken for, or to a new one. */
    method AddRow(key: Key, args: seq<Value>) returns (rc: RC)
      requires Valid() && HasTypes(key, types) && |args| == |aggrs|
      requires forall a :: 0 <= a < |aggrs| && Supported(aggrs[a]) ==> Fits(aggrs[a], args[a])
      modifies this
      ensures Valid()
      ensures rc == if AllSupported(aggrs) then SUCCESS else INTERNAL
      ensures rc == SUCCESS ==> rows == old(rows) + [Row(key, args)]
      ensures rc != SUCCESS ==> unchanged(this)
    {
      hide HasTypes, Groupable, Placed, KeysOf, Buckets.Valid, Buckets.Lookup, Buckets.Matches, GroupStates, Create, Update;
      ghost var placed := Placed(buckets, rows);
      var entry := Find(key);
      var k := if entry.Some? then entry.value else key;
      var before;
      if entry.Some? {
        before := table[k];
      } else {
        rc, before := CreateStates();
        if rc != SUCCESS {
          return;
        }
        MatchesSelf(buckets, key, types);
        FreshStates(aggrs, placed, key, before);
      }
      assert GroupStates(aggrs, placed, k, before);
      StatesTyped(aggrs, placed, k, before);
      var after := UpdateStates(before, args);
      ghost var r := Row(k, args);
      assert RowFits(aggrs, r);
      OwnGroup(aggrs, placed, r, before, after);
      RowAdded(aggrs, table, placed, r, after);
      PlacedSnoc(buckets, rows, Row(key, args));
      KeysSnoc(placed, r);
      table := table[k := after];
      if entry.None? {
        order := order + [k];
      }
      rows := rows + [Row(key, args)];
      return SUCCESS;
    }

    method UpdateStates(before: seq<AggrState>, args: seq<Value>) returns (after: seq<AggrState>)
      requires |before| == |aggrs| == |args|
      requires forall a :: 0 <= a < |aggrs| ==> StateOf(aggrs[a], before[a]) && Fits(aggrs[a], args[a])
      ensures |after| == |aggrs|
      ensures forall a :: 0 <= a < |aggrs| ==> after[a] == Update(aggrs[a], before[a], args[a])
    {
      after := [];
      for j := 0 to |aggrs|
        invariant |after| == j && forall a :: 0 <= a < j ==> after[a] == Update(aggrs[a], before[a], args[a])
      {
        after := after + [Update(aggrs[j], before[j], args[j])];
      }
    }

    /** Adds all rows of the chunk, or none. */
    method AddChunk(groups: Chunk, args: Chunk) returns (rc: RC)
      requires Valid() && groups.Rectangular() && ChunkFits(aggrs, args)
      requires forall i :: 0 <= i < groups.Rows() ==> HasTypes(groups.RowAt(i), types)
      modifies this
      ensures Valid()
      ensures rc == if groups.Rows() != args.Rows() then INVALID_ARGUMENT
                    else if groups.Rows() == 0 || AllSupported(aggrs) then SUCCESS else INTERNAL
      ensures rc == SUCCESS ==> rows == old(rows) + ChunkRows(groups, args)
      ensures rc != SUCCESS ==> unchanged(this)
    {
      hide Represents, Placed, KeysOf, HasTypes, Groupable, Buckets.Valid;
      if groups.Rows() != args.Rows() {
        return INVALID_ARGUMENT;
      }
      ghost var added := ChunkRows(groups, args);
      for i := 0 to groups.Rows()
        invariant Valid() && rows == old(rows) + added[..i]
        invariant i > 0 ==> AllSupported(aggrs)
        invariant i == 0 ==> unchanged(this)
      {
        rc := AddRow(groups.RowAt(i), args.RowAt(i));
        if rc != SUCCESS {
          return;
        }
        assert added[..i + 1] == added[..i] + [added[i]];
      }
      assert added[..groups.Rows()] == added;
      rc := SUCCESS;
    }
  }

  lemma KeysSnoc(rows: seq<Row>, r: Row)
    ensures KeysOf(rows + [r]) == if HasKey(rows, r.key) then KeysOf(rows) else KeysOf(rows) + [r.key]
  {
    assert (rows + [r])[..|rows|] == rows;
  }

  lemma RowAdded(aggrs: seq<Aggr>, table: map<Key, seq<AggrState>>, rows: seq<Row>, r: Row, after: seq<AggrState>)
    requires Represents(aggrs, table, rows) && RowFits(aggrs, r)
    requires RowsFit(aggrs, rows + [r]) && GroupStates(aggrs, rows + [r], r.key, after)
    ensures Represents(aggrs, table[r.key := after], rows + [r])
  {
    var rows', table' := rows + [r], table[r.key := after];
    forall key ensures key in table' <==> HasKey(rows', key) {
      if HasKey(rows, key) {
        var i :| 0 <= i < |rows| && rows[i].key == key;
        assert rows'[i].key == key;
      }
      assert rows'[|rows|] == r;
      if HasKey(rows', key) && key != r.key {
        var i :| 0 <= i < |rows'| && rows'[i].key == key;
        assert rows[i].key == key;
      }
    }
    forall key | key in table' ensures GroupStates(aggrs, rows', key, table'[key]) {
      if key != r.key {
        OtherGroup(aggrs, rows, r, key, table[key]);
      }
    }
  }

  // ----- runs of chunks -----

  /** Key columns and argument columns of the right types, with as many rows each. */
  ghost predicate ChunkOk(aggrs: seq<Aggr>, types: seq<AttrType>, groups: Chunk, args: Chunk) {
    && groups.Rectangular() && ChunkFits(aggrs, args) && groups.Rows() == args.Rows()
    && forall i :: 0 <= i < groups.Rows() ==> HasTypes(groups.RowAt(i), types)
  }

  datatype ChunkPair = ChunkPair(groups: Chunk, args: Chunk)

  ghost predicate ChunksOk(aggrs: seq<Aggr>, types: seq<AttrType>, chunks: seq<ChunkPair>) {
    forall c :: 0 <= c < |chunks| ==> ChunkOk(aggrs, types, chunks[c].groups, chunks[c].args)
  }

  ghost function AllRows(aggrs: seq<Aggr>, types: seq<AttrType>, chunks: seq<ChunkPair>): seq<Row>
    requires ChunksOk(aggrs, types, chunks)
  {
    if chunks == [] then []
    else
      var last := chunks[|chunks| - 1];
      assert ChunkOk(aggrs, types, last.groups, last.args);
      AllRows(aggrs, types, chunks[..|chunks| - 1]) + ChunkRows(last.groups, last.args)
  }

  lemma {:induction false} RowsGrow(aggrs: seq<Aggr>, types: seq<AttrType>, chunks: seq<ChunkPair>, n: nat)
    requires ChunksOk(aggrs, types, chunks) && n <= |chunks|
    ensures |AllRows(aggrs, types, chunks[..n])| <= |AllRows(aggrs, types, chunks)|
    decreases |chunks|
  {
    if n < |chunks| {
      var init := chunks[..|chunks| - 1];
      RowsGrow(aggrs, types, init, n);
      assert init[..n] == chunks[..n];
    } else {
      assert chunks[..n] == chunks;
    }
  }

  /** A new table fed with the chunks until one is refused. */
  method GroupChunks(aggrs: seq<Aggr>, buckets: Buckets, ghost types: seq<AttrType>, chunks: seq<ChunkPair>)
    returns (rc: RC, table: map<Key, seq<AggrState>>)
    requires buckets.Valid() && Groupable(types) && ChunksOk(aggrs, types, chunks)
    ensures rc == if AllRows(aggrs, types, chunks) == [] || AllSupported(aggrs) then SUCCESS else INTERNAL
    ensures Represents(aggrs, table, Placed(buckets, if rc == SUCCESS then AllRows(aggrs, types, chunks) else []))
  {
    hide Represents, Placed, KeysOf, HasTypes, Groupable, Buckets.Valid, Fits;
    var t := new AggregateTable(aggrs, buckets, types);
    for c := 0 to |chunks|
      invariant t.Valid() && fresh(t) && t.aggrs == aggrs && t.buckets == buckets && t.types == types
      invariant t.rows == AllRows(aggrs, types, chunks[..c])
      invariant t.rows == [] || AllSupported(aggrs)
    {
      assert chunks[..c + 1][..c] == chunks[..c];
      assert ChunkOk(aggrs, types, chunks[c].groups, chunks[c].args);
      rc := t.AddChunk(chunks[c].groups, chunks[c].args);
      if rc != SUCCESS {
        RowsGrow(aggrs, types, chunks, c + 1);
        assert |ChunkRows(chunks[c].groups, chunks[c].args)| == chunks[c].groups.Rows() > 0;
        return rc, t.table;
      }
    }
    assert chunks[..|chunks|] == chunks;
    return SUCCESS, t.table;
  }

  /** However the rows are divided into chunks, the table is the same, and so is the answer. */
  method ChunkingDoesNotMatter(aggrs: seq<Aggr>, buckets: Buckets, ghost types: seq<AttrType>,
                               a: seq<ChunkPair>, b: seq<ChunkPair>)
    returns (rcA: RC, tableA: map<Key, seq<AggrState>>, rcB: RC, tableB: map<Key, seq<AggrState>>)
    requires buckets.Valid() && Groupable(types) && ChunksOk(aggrs, types, a) && ChunksOk(aggrs, types, b)
    requires AllRows(aggrs, types, a) == AllRows(aggrs, types, b)
    ensures rcA == rcB && tableA == tableB
  {
    hide Represents, Placed, Groupable, Buckets.Valid, ChunksOk, AllRows;
    rcA, tableA := GroupChunks(aggrs, buckets, types, a);
    rcB, tableB := GroupChunks(aggrs, buckets, types, b);
    RepresentsUnique(aggrs, tableA, tableB, Placed(buckets, if rcA == SUCCESS then AllRows(aggrs, types, a) else []));
  }

  /** For INTS and CHARS keys the table has one entry per distinct key, with the fold of exactly that key's rows. */
  lemma ExactGroups(t: AggregateTable)
    requires t.Valid() && FLOATS !in t.types
    ensures Represents(t.aggrs, t.table, t.rows)
  {
    hide Represents, Placed, KeysOf, HasTypes, Groupable;
    PlacedExactly(t.buckets, t.rows, t.types);
  }

  // ----- nothing is lost between groups -----

  /** What a row adds to aggregate `a`: one to a COUNT, its integer to a SUM or AVG over INTS. */
  ghost function Weight(aggr: Aggr, r: Row, a: nat): int {
    if aggr.kind == COUNT then 1 else if a < |r.args| && r.args[a].IntV? then r.args[a].n else 0
  }

  ghost function Total(aggr: Aggr, rows: seq<Row>, a: nat): int {
    if rows == [] then 0 else Total(aggr, rows[..|rows| - 1], a) + Weight(aggr, rows[|rows| - 1], a)
  }

  ghost function GroupTotal(aggr: Aggr, rows: seq<Row>, key: Key, a: nat): int {
    if rows == [] then 0
    else GroupTotal(aggr, rows[..|rows| - 1], key, a)
         + if rows[|rows| - 1].key == key then Weight(aggr, rows[|rows| - 1], a) else 0
  }

  ghost function Pick(keys: set<Key>): (k: Key)
    requires keys != {}
    ensures k in keys
  {
    var k :| k in keys;
    k
  }

  ghost function SumGroups(aggr: Aggr, rows: seq<Row>, keys: set<Key>, a: nat): int {
    if keys == {} then 0
    else GroupTotal(aggr, rows, Pick(keys), a) + SumGroups(aggr, rows, keys - {Pick(keys)}, a)
  }

  lemma {:induction false} SumGroupsAddRow(aggr: Aggr, rows: seq<Row>, r: Row, keys: set<Key>, a: nat)
    ensures SumGroups(aggr, rows + [r], keys, a)
         == SumGroups(aggr, rows, keys, a) + if r.key in keys then Weight(aggr, r, a) else 0
    decreases keys
  {
    if keys != {} {
      SumGroupsAddRow(aggr, rows, r, keys - {Pick(keys)}, a);
      assert (rows + [r])[..|rows|] == rows;
    }
  }

  lemma {:induction false} SumGroupsNone(aggr: Aggr, keys: set<Key>, a: nat)
    ensures SumGroups(aggr, [], keys, a) == 0
    decreases keys
  {
    if keys != {} {
      SumGroupsNone(aggr, keys - {Pick(keys)}, a);
    }
  }

  lemma {:induction false} GroupsPartitionRows(aggr: Aggr, rows: seq<Row>, keys: set<Key>, a: nat)
    requires forall i :: 0 <= i < |rows| ==> rows[i].key in keys
    ensures SumGroups(aggr, rows, keys, a) == Total(aggr, rows, a)
    decreases |rows|
  {
    if rows == [] {
      SumGroupsNone(aggr, keys, a);
    } else {
      var init, last := rows[..|rows| - 1], rows[|rows| - 1];
      GroupsPartitionRows(aggr, init, keys, a);
      SumGroupsAddRow(aggr, init, last, keys, a);
      assert init + [last] == rows;
    }
  }

  /** The count or integer sum a state holds. */
  ghost function Held(s: AggrState): int {
    match s
    case Count(n) => n
    case SumInt(t) => t
    case AvgInt(t, _) => t
    case _ => 0
  }

  ghost predicate Countable(aggr: Aggr) {
    Supported(aggr) && (aggr.kind == COUNT || aggr.child == INTS)
  }

  lemma {:induction false} StateHoldsTotal(aggrs: seq<Aggr>, rows: seq<Row>, key: Key, a: nat)
    requires RowsFit(aggrs, rows) && a < |aggrs| && Countable(aggrs[a])
    ensures Held(UpdateAll(aggrs[a], Create(aggrs[a]), GroupArgs(aggrs, rows, key, a)))
         == GroupTotal(aggrs[a], rows, key, a)
    decreases |rows|
  {
    if rows == [] {
      assert Held(Create(aggrs[a])) == 0;
    } else {
      hide UpdateAll, Update, Create, Held, Weight, Supported, Fits, GroupArgs, RowFits;
      var init, last := rows[..|rows| - 1], rows[|rows| - 1];
      StateHoldsTotal(aggrs, init, key, a);
      GroupArgsStep(aggrs, rows, key, a);
      if last.key == key {
        var vs := GroupArgs(aggrs, init, key, a);
        UpdateAllSnoc(aggrs[a], Create(aggrs[a]), vs, last.args[a]);
        UpdateHolds(aggrs[a], UpdateAll(aggrs[a], Create(aggrs[a]), vs), last, a);
      }
    }
  }

  lemma GroupArgsStep(aggrs: seq<Aggr>, rows: seq<Row>, key: Key, a: nat)
    requires RowsFit(aggrs, rows) && a < |aggrs| && rows != []
    ensures var init, last := rows[..|rows| - 1], rows[|rows| - 1];
      && RowsFit(aggrs, init) && a < |last.args| && Fits(aggrs[a], last.args[a])
      && (last.key == key ==> GroupArgs(aggrs, rows, key, a) == GroupArgs(aggrs, init, key, a) + [last.args[a]])
      && (last.key != key ==> GroupArgs(aggrs, rows, key, a) == GroupArgs(aggrs, init, key, a))
  {
    hide Fits;
    assert RowFits(aggrs, rows[|rows| - 1]);
  }

  lemma UpdateAllSnoc(a: Aggr, s: AggrState, vs: seq<Value>, v: Value)
    requires StateOf(a, s) && Fits(a, v) && forall i :: 0 <= i < |vs| ==> Fits(a, vs[i])
    ensures UpdateAll(a, s, vs + [v]) == Update(a, UpdateAll(a, s, vs), v)
  {
    hide Fits, Update;
    assert (vs + [v])[..|vs|] == vs;
  }

  lemma UpdateHolds(aggr: Aggr, s: AggrState, r: Row, a: nat)
    requires Countable(aggr) && StateOf(aggr, s) && a < |r.args| && Fits(aggr, r.args[a])
    ensures Held(Update(aggr, s, r.args[a])) == Held(s) + Weight(aggr, r, a)
  {
  }

  ghost function SumHeld(table: map<Key, seq<AggrState>>, keys: set<Key>, a: nat): int
    requires forall k :: k in keys ==> k in table && a < |table[k]|
  {
    if keys == {} then 0 else Held(table[Pick(keys)][a]) + SumHeld(table, keys - {Pick(keys)}, a)
  }

  lemma {:induction false} SumHeldIsSumGroups(aggrs: seq<Aggr>, table: map<Key, seq<AggrState>>, rows: seq<Row>, keys: set<Key>, a: nat)
    requires Represents(aggrs, table, rows) && a < |aggrs| && Countable(aggrs[a])
    requires forall k :: k in keys ==> k in table && a < |table[k]|
    ensures SumHeld(table, keys, a) == SumGroups(aggrs[a], rows, keys, a)
    decreases keys
  {
    if keys != {} {
      var k := Pick(keys);
      assert GroupStates(aggrs, rows, k, table[k]);
      StateHoldsTotal(aggrs, rows, k, a);
      SumHeldIsSumGroups(aggrs, table, rows, keys - {k}, a);
    }
  }

  lemma {:induction false} CountTotal(aggr: Aggr, rows: seq<Row>, a: nat)
    requires aggr.kind == COUNT
    ensures Total(aggr, rows, a) == |rows|
  {
    if rows != [] {
      CountTotal(aggr, rows[..|rows| - 1], a);
    }
  }

  /** Over all groups, COUNT states add up to the rows added, and integer sums to the sum over all rows. */
  lemma GroupsConserve(aggrs: seq<Aggr>, table: map<Key, seq<AggrState>>, rows: seq<Row>, a: nat)
    requires Represents(aggrs, table, rows) && a < |aggrs| && Countable(aggrs[a])
    ensures forall k :: k in table.Keys ==> a < |table[k]|
    ensures SumHeld(table, table.Keys, a) == Total(aggrs[a], rows, a)
    ensures aggrs[a].kind == COUNT ==> SumHeld(table, table.Keys, a) == |rows|
  {
    forall k | k in table.Keys ensures a < |table[k]| {
      assert GroupStates(aggrs, rows, k, table[k]);
    }
    forall i | 0 <= i < |rows| ensures rows[i].key in table.Keys {
      assert HasKey(rows, rows[i].key);
    }
    SumHeldIsSumGroups(aggrs, table, rows, table.Keys, a);
    GroupsPartitionRows(aggrs[a], rows, table.Keys, a);
    if aggrs[a].kind == COUNT {
      CountTotal(aggrs[a], rows, a);
    }
  }

  lemma {:induction false} SameArgsSameTotal(aggr: Aggr, rows: seq<Row>, placed: seq<Row>, a: nat)
    requires |rows| == |placed| && forall i :: 0 <= i < |rows| ==> placed[i].args == rows[i].args
    ensures Total(aggr, placed, a) == Total(aggr, rows, a)
  {
    if rows != [] {
      SameArgsSameTotal(aggr, rows[..|rows| - 1], placed[..|rows| - 1], a);
    }
  }

  /** For keys of every type: the COUNT states of all entries sum to the number of rows, integer SUM states to the total. */
  lemma TableConserves(t: AggregateTable, a: nat)
    requires t.Valid() && a < |t.aggrs| && Countable(t.aggrs[a])
    ensures forall k :: k in t.table.Keys ==> a < |t.table[k]|
    ensures SumHeld(t.table, t.table.Keys, a) == Total(t.aggrs[a], t.rows, a)
    ensures t.aggrs[a].kind == COUNT ==> SumHeld(t.table, t.table.Keys, a) == |t.rows|
  {
    hide Represents, KeysOf, HasTypes, Groupable, Buckets.Valid, SumHeld, Total, Countable;
    var placed := Placed(t.buckets, t.rows);
    GroupsConserve(t.aggrs, t.table, placed, a);
    SameArgsSameTotal(t.aggrs[a], t.rows, placed, a);
  }

  // ----- scanning -----

  /** `finialize_aggregate_state`; an average divides as the type `float` would, without rounding. */
  function Finalize(s: AggrState): Value {
    match s
    case SumInt(t) => IntV(t)
    case SumFloat(t) => FloatV(t)
    case Count(n) => IntV(n)
    case AvgInt(t, n) => if n == 0 then FloatV(0.0) else FloatV(t as real / n as real)
    case AvgFloat(t, n) => if n == 0 then FloatV(0.0) else FloatV(t / n as real)
  }

  /** The output row of a group: column ids below the number of keys name keys, the others aggregates. */
  function OutputRow(key: Key, states: seq<AggrState>, ids: seq<nat>): seq<Value>
    requires forall i :: 0 <= i < |ids| ==> ids[i] < |key| + |states|
  {
    seq(|ids|, i requires 0 <= i < |ids| => if ids[i] >= |key| then Finalize(states[ids[i] - |key|]) else key[ids[i]])
  }

  datatype Group = Group(key: Key, states: seq<AggrState>)

  /** `order` lists each entry of the table once. */
  ghost predicate Enumerates(table: map<Key, seq<AggrState>>, order: seq<Group>) {
    && (forall i, j :: 0 <= i < j < |order| ==> order[i].key != order[j].key)
    && (forall i :: 0 <= i < |order| ==> order[i].key in table && table[order[i].key] == order[i].states)
    && (forall key :: key in table ==> exists i :: 0 <= i < |order| && order[i].key == key)
  }

  /** The output column ids name keys and states of every group. */
  ghost predicate IdsFit(order: seq<Group>, ids: seq<nat>) {
    forall g, i :: 0 <= g < |order| && 0 <= i < |ids| ==> ids[i] < |order[g].key| + |order[g].states|
  }

  ghost function Outputs(order: seq<Group>, ids: seq<nat>, from: nat, to: nat): (rows: seq<seq<Value>>)
    requires IdsFit(order, ids) && from <= to <= |order|
    ensures |rows| == to - from
    ensures forall g :: from <= g < to ==> rows[g - from] == OutputRow(order[g].key, order[g].states, ids)
  {
    if from == to then []
    else Outputs(order, ids, from, to - 1) + [OutputRow(order[to - 1].key, order[to - 1].states, ids)]
  }

  lemma OutputsJoin(order: seq<Group>, ids: seq<nat>, a: nat, b: nat, c: nat)
    requires IdsFit(order, ids) && a <= b <= c <= |order|
    ensures Outputs(order, ids, a, b) + Outputs(order, ids, b, c) == Outputs(order, ids, a, c)
  {
    hide OutputRow, IdsFit;
  }

  class Scanner {
    const order: seq<Group>
    const ids: seq<nat>
    var it: nat

    ghost predicate Valid()
      reads this
    {
      it <= |order| && IdsFit(order, ids)
    }

    /** `open_scan` at the start of the table's iteration order. */
    constructor (order: seq<Group>, ids: seq<nat>)
      requires IdsFit(order, ids)
      ensures Valid() && it == 0 && this.order == order && this.ids == ids
    {
      this.order, this.ids, it := order, ids, 0;
    }

    /** Fills an output chunk that holds `rows` up to `capacity`. */
    method Next(rows: seq<seq<Value>>, capacity: nat) returns (rc: RC, out: seq<seq<Value>>)
      requires Valid()
      modifies this
      ensures Valid() && it >= old(it)
      ensures rc == if old(it) == |order| then RECORD_EOF else SUCCESS
      ensures out == rows + Outputs(order, ids, old(it), it)
      ensures it == |order| || it == old(it) + (if |rows| < capacity then capacity - |rows| else 0)
      ensures it <= old(it) + (if |rows| < capacity then capacity - |rows| else 0)
    {
      hide OutputRow;
      out := rows;
      if it == |order| {
        return RECORD_EOF, out;
      }
      while it != |order| && |out| < capacity
        invariant Valid() && old(it) <= it
        invariant out == rows + Outputs(order, ids, old(it), it)
        invariant it <= old(it) + (if |rows| < capacity then capacity - |rows| else 0)
        decreases |order| - it
      {
        out := out + [OutputRow(order[it].key, order[it].states, ids)];
        it := it + 1;
      }
      rc := SUCCESS;
    }
  }

  /** Repeated scans into empty chunks give the row of each group of the table exactly once, in iteration order.
      A chunk without columns has no capacity: then no scan advances, and the scans go on forever. */
  method ScanAll(table: AggregateTable, order: seq<Group>, ids: seq<nat>, columnCapacity: nat)
    returns (all: seq<seq<Value>>, forever: bool)
    requires table.Valid() && Enumerates(table.table, order) && IdsFit(order, ids)
    ensures forever <==> order != [] && (ids == [] || columnCapacity == 0)
    ensures !forever ==> |all| == |table.table| == |order|
    ensures !forever ==> forall g :: 0 <= g < |order| ==> all[g] == OutputRow(order[g].key, order[g].states, ids)
    ensures !forever ==> forall key :: key in table.table ==>
      exists g :: 0 <= g < |order| && order[g].key == key && order[g].states == table.table[key]
  {
    hide OutputRow, IdsFit, Represents, Placed, KeysOf, Enumerates, AggregateTable.Valid;
    EnumeratedOnce(table.table, order);
    AllEnumerated(table.table, order);
    var capacity := if ids == [] then 0 else columnCapacity;
    var scanner := new Scanner(order, ids);
    all := [];
    while true
      invariant scanner.Valid() && fresh(scanner) && scanner.order == order && scanner.ids == ids
      invariant all == Outputs(order, ids, 0, scanner.it) && (capacity == 0 ==> scanner.it == 0)
      decreases |order| - scanner.it
    {
      ghost var from := scanner.it;
      var rc, out := scanner.Next([], capacity);
      if rc == RECORD_EOF {
        break;
      }
      OutputsJoin(order, ids, 0, from, scanner.it);
      all := all + out;
      if capacity == 0 {
        return all, true;
      }
    }
    forever := false;
  }

  lemma AllEnumerated(table: map<Key, seq<AggrState>>, order: seq<Group>)
    requires Enumerates(table, order)
    ensures forall key :: key in table ==> exists g :: 0 <= g < |order| && order[g].key == key && order[g].states == table[key]
  {
  }

  /** Leaving out the last listed entry. */
  lemma EnumeratesInit(table: map<Key, seq<AggrState>>, order: seq<Group>)
    requires Enumerates(table, order) && order != []
    ensures Enumerates(table - {order[|order| - 1].key}, order[..|order| - 1])
  {
    var init, last := order[..|order| - 1], order[|order| - 1].key;
    forall key | key in table - {last} ensures exists i :: 0 <= i < |init| && init[i].key == key {
      var i :| 0 <= i < |order| && order[i].key == key;
      assert init[i].key == key;
    }
  }

  /** The listed entries are as many as the groups. */
  lemma {:induction false} EnumeratedOnce(table: map<Key, seq<AggrState>>, order: seq<Group>)
    requires Enumerates(table, order)
    ensures |order| == |table|
    decreases |order|
  {
    if order == [] {
      assert table.Keys == {};
    } else {
      var last := order[|order| - 1].key;
      EnumeratesInit(table, order);
      assert last in table;
      hide Enumerates;
      EnumeratedOnce(table - {last}, order[..|order| - 1]);
      assert table.Keys == (table - {last}).Keys + {last};
    }
  }
}
