/** The least-recently-used cache: a doubly linked list of nodes plus an index by key. */
module LruCache {
  import opened Common

  // ----- the recency list, on values -----

  /** Keys and values, most recently used first. */
  ghost predicate DistinctKeys<K, V>(c: seq<(K, V)>) {
    forall i, j :: 0 <= i < j < |c| ==> c[i].0 != c[j].0
  }

  ghost function Lookup<K, V>(c: seq<(K, V)>, key: K): Option<V> {
    if c == [] then None else if c[0].0 == key then Some(c[0].1) else Lookup(c[1..], key)
  }

  /** Every entry but that of `key`, in the same order. */
  ghost function Others<K, V>(c: seq<(K, V)>, key: K): seq<(K, V)> {
    if c == [] then []
    else if c[0].0 == key then Others(c[1..], key)
    else [c[0]] + Others(c[1..], key)
  }

  /** What `put`, `get` and `remove` make of the recency list. */
  ghost function AfterPut<K, V>(c: seq<(K, V)>, key: K, value: V): seq<(K, V)> {
    [(key, value)] + Others(c, key)
  }

  ghost function AfterGet<K, V>(c: seq<(K, V)>, key: K): seq<(K, V)> {
    match Lookup(c, key)
    case None => c
    case Some(v) => [(key, v)] + Others(c, key)
  }

  lemma {:induction false} OthersMember<K, V>(c: seq<(K, V)>, key: K, e: (K, V))
    ensures e in Others(c, key) <==> e in c && e.0 != key
  {
    if c != [] {
      OthersMember(c[1..], key, e);
      assert c == [c[0]] + c[1..];
    }
  }

  lemma {:induction false} OthersDistinct<K, V>(c: seq<(K, V)>, key: K)
    requires DistinctKeys(c)
    ensures DistinctKeys(Others(c, key))
  {
    if c != [] {
      assert DistinctKeys(c[1..]);
      OthersDistinct(c[1..], key);
      forall e | e in Others(c[1..], key) ensures e.0 != c[0].0 {
        OthersMember(c[1..], key, e);
      }
      FrontDistinct(c[0], Others(c[1..], key));
    }
  }

  lemma FrontDistinct<K, V>(e: (K, V), c: seq<(K, V)>)
    requires DistinctKeys(c) && forall x :: x in c ==> x.0 != e.0
    ensures DistinctKeys([e] + c)
  {
    var r := [e] + c;
    forall i, j | 0 <= i < j < |r| ensures r[i].0 != r[j].0 {
      assert r[j] in c;
    }
  }

  lemma {:induction false} LookupOthers<K, V>(c: seq<(K, V)>, key: K, k: K)
    ensures Lookup(Others(c, key), k) == if k == key then None else Lookup(c, k)
  {
    if c != [] {
      LookupOthers(c[1..], key, k);
      if c[0].0 != key {
        assert Others(c, key)[1..] == Others(c[1..], key);
      }
    }
  }

  /** The cache is a map: a put is seen by lookups of its key and by no other. */
  lemma PutThenLookup<K, V>(c: seq<(K, V)>, key: K, value: V, k: K)
    requires DistinctKeys(c)
    ensures Lookup(AfterPut(c, key, value), k) == if k == key then Some(value) else Lookup(c, k)
    ensures DistinctKeys(AfterPut(c, key, value))
    ensures Others(AfterPut(c, key, value), key) == Others(c, key)
  {
    hide DistinctKeys, Others, Lookup;
    LookupOthers(c, key, k);
    OthersDistinct(c, key);
    var rest := Others(c, key);
    forall e | e in rest ensures e.0 != key {
      OthersMember(c, key, e);
    }
    FrontDistinct((key, value), rest);
    FrontEntry((key, value), rest, key, k);
    NotThere(rest, key);
  }

  lemma FrontEntry<K, V>(e: (K, V), rest: seq<(K, V)>, key: K, k: K)
    ensures Lookup([e] + rest, k) == if k == e.0 then Some(e.1) else Lookup(rest, k)
    ensures Others([e] + rest, key) == if key == e.0 then Others(rest, key) else [e] + Others(rest, key)
  {
    assert ([e] + rest)[1..] == rest;
  }

  /** A get changes no lookup; the key it finds comes first and the others keep their order. */
  lemma GetKeepsLookups<K, V>(c: seq<(K, V)>, key: K, k: K)
    requires DistinctKeys(c)
    ensures Lookup(AfterGet(c, key), k) == Lookup(c, k)
    ensures DistinctKeys(AfterGet(c, key))
    ensures Others(AfterGet(c, key), key) == Others(c, key)
    ensures Lookup(c, key).Some? ==> AfterGet(c, key)[0].0 == key
  {
    match Lookup(c, key)
    case None =>
    case Some(v) => PutThenLookup(c, key, v, k);
  }

  /** The position of a key among distinct ones. */
  lemma {:induction false} AtIndex<K, V>(c: seq<(K, V)>, k: nat)
    requires DistinctKeys(c) && k < |c|
    ensures Lookup(c, c[k].0) == Some(c[k].1) && Others(c, c[k].0) == Without(c, k)
  {
    if k == 0 {
      NotThere(c[1..], c[0].0);
      assert Without(c, 0) == c[1..];
    } else {
      AtIndex(c[1..], k - 1);
      assert c[1..][k - 1] == c[k];
      assert Without(c, k) == [c[0]] + Without(c[1..], k - 1);
    }
  }

  lemma {:induction false} NotThere<K, V>(c: seq<(K, V)>, key: K)
    requires forall i :: 0 <= i < |c| ==> c[i].0 != key
    ensures Lookup(c, key) == None && Others(c, key) == c
  {
    if c != [] {
      NotThere(c[1..], key);
      assert c == [c[0]] + c[1..];
    }
  }

  ghost function Without<T>(s: seq<T>, k: nat): seq<T>
    requires k < |s|
  {
    s[..k] + s[k + 1..]
  }

  class ListNode<K, V> {
    const key: K
    var value: V
    var prev: ListNode?<K, V>
    var next: ListNode?<K, V>

    constructor (key: K, value: V)
      ensures this.key == key && this.value == value && prev == null && next == null
    {
      this.key, this.value, prev, next := key, value, null, null;
    }
  }

  ghost predicate NoRepeats<T>(s: seq<T>) {
    forall i, j :: 0 <= i < j < |s| ==> s[i] != s[j]
  }

  ghost predicate Within<T>(a: seq<T>, b: seq<T>) {
    forall x :: x in a ==> x in b
  }

  /** `nodes` is the list from `front` to `tail`, by its forward and by its backward links. */
  ghost predicate Linked<K, V>(nodes: seq<ListNode<K, V>>, front: ListNode?<K, V>, tail: ListNode?<K, V>)
    reads nodes`prev, nodes`next
  {
    && NoRepeats(nodes)
    && front == (if nodes == [] then null else nodes[0])
    && tail == (if nodes == [] then null else nodes[|nodes| - 1])
    && (forall i :: 0 <= i < |nodes| ==> LinkedAt(nodes, i))
  }

  /** The links of the `i`-th node lead to its neighbours. */
  ghost predicate LinkedAt<K, V>(nodes: seq<ListNode<K, V>>, i: nat)
    requires i < |nodes|
    reads nodes`prev, nodes`next
  {
    && nodes[i].prev == (if i == 0 then null else nodes[i - 1])
    && nodes[i].next == (if i == |nodes| - 1 then null else nodes[i + 1])
  }

  /** The keys and values of the nodes, in order. */
  ghost function Pairs<K, V>(nodes: seq<ListNode<K, V>>): seq<(K, V)>
    reads nodes`value
  {
    if nodes == [] then [] else [(nodes[0].key, nodes[0].value)] + Pairs(nodes[1..])
  }

  lemma {:induction false} PairsAt<K, V>(nodes: seq<ListNode<K, V>>)
    ensures |Pairs(nodes)| == |nodes|
    ensures forall i :: 0 <= i < |nodes| ==> Pairs(nodes)[i] == (nodes[i].key, nodes[i].value)
  {
    if nodes != [] {
      PairsAt(nodes[1..]);
    }
  }

  lemma {:induction false} PairsConcat<K, V>(a: seq<ListNode<K, V>>, b: seq<ListNode<K, V>>)
    ensures Pairs(a + b) == Pairs(a) + Pairs(b)
  {
    if a == [] {
      assert a + b == b;
    } else {
      var rest := a[1..];
      PairsConcat(rest, b);
      PairsWith(rest + b, a[0]);
      PairsWith(rest, a[0]);
      assert a == [a[0]] + rest && a + b == [a[0]] + (rest + b);
      hide Pairs;
      Regroup([(a[0].key, a[0].value)], Pairs(rest), Pairs(b));
    }
  }

  lemma Regroup<T>(x: seq<T>, y: seq<T>, z: seq<T>)
    ensures x + (y + z) == (x + y) + z
  {
  }

  lemma WithoutMiddle<T>(x: seq<T>, e: T, y: seq<T>)
    ensures Without(x + ([e] + y), |x|) == x + y && (x + ([e] + y))[|x|] == e
  {
    assert (x + ([e] + y))[|x| + 1..] == y;
  }

  lemma PairsWithout<K, V>(nodes: seq<ListNode<K, V>>, k: nat)
    requires k < |nodes|
    ensures |Pairs(nodes)| == |nodes|
    ensures Pairs(Without(nodes, k)) == Without(Pairs(nodes), k)
    ensures Pairs([nodes[k]] + Without(nodes, k)) == [Pairs(nodes)[k]] + Without(Pairs(nodes), k)
  {
    var a, b := nodes[..k], nodes[k + 1..];
    assert nodes == a + ([nodes[k]] + b);
    hide Pairs;
    PairsConcat(a, [nodes[k]] + b);
    PairsConcat(a, b);
    PairsWith(b, nodes[k]);
    PairsWith(a + b, nodes[k]);
    PairsLength(nodes);
    PairsLength(a);
    WithoutMiddle(Pairs(a), (nodes[k].key, nodes[k].value), Pairs(b));
  }

  lemma PairsLength<K, V>(nodes: seq<ListNode<K, V>>)
    ensures |Pairs(nodes)| == |nodes|
  {
    PairsAt(nodes);
  }

  lemma PairsWith<K, V>(nodes: seq<ListNode<K, V>>, node: ListNode<K, V>)
    ensures Pairs([node] + nodes) == [(node.key, node.value)] + Pairs(nodes)
  {
    assert ([node] + nodes)[1..] == nodes;
  }

  /** The index holds exactly the listed nodes, each under its own key. */
  ghost predicate Indexed<K, V>(searcher: map<K, ListNode<K, V>>, nodes: seq<ListNode<K, V>>) {
    && (forall n :: n in nodes ==> n.key in searcher && searcher[n.key] == n)
    && (forall k :: k in searcher ==> searcher[k] in nodes && searcher[k].key == k)
  }

  lemma IndexedWithout<K, V>(searcher: map<K, ListNode<K, V>>, nodes: seq<ListNode<K, V>>, k: nat)
    requires Indexed(searcher, nodes) && NoRepeats(nodes) && k < |nodes|
    ensures Indexed(searcher, [nodes[k]] + Without(nodes, k))
    ensures Indexed(searcher - {nodes[k].key}, Without(nodes, k))
  {
    WithoutMembers(nodes, k);
    hide Without, NoRepeats;
    assert nodes[k] in nodes;
    var rest := Without(nodes, k);
    forall n | n in rest ensures n.key != nodes[k].key {
      assert n in nodes;
    }
  }

  lemma IndexedWith<K, V>(searcher: map<K, ListNode<K, V>>, nodes: seq<ListNode<K, V>>, node: ListNode<K, V>)
    requires Indexed(searcher, nodes) && node.key !in searcher
    ensures Indexed(searcher[node.key := node], [node] + nodes) && node !in nodes
  {
  }

  class LruCache<K(==), V> {
    var searcher: map<K, ListNode<K, V>>
    var front: ListNode?<K, V>
    var tail: ListNode?<K, V>
    ghost var nodes: seq<ListNode<K, V>>

    ghost predicate Valid()
      reads this, nodes
    {
      Linked(nodes, front, tail) && Indexed(searcher, nodes)
    }

    ghost function Contents(): (c: seq<(K, V)>)
      reads this, nodes
      ensures |c| == |nodes|
    {
      PairsAt(nodes);
      Pairs(nodes)
    }

    constructor ()
      ensures Valid() && nodes == []
    {
      searcher, front, tail, nodes := map[], null, null, [];
    }

    /** Takes an inner or last node out of the list, as `lru_touch` does first. */
    method Detach(node: ListNode<K, V>, ghost k: nat)
      requires Linked(nodes, front, tail) && 0 < k < |nodes| && nodes[k] == node
      modifies nodes`prev, nodes`next, this`tail, this`nodes
      ensures nodes == Without(old(nodes), k) && Linked(nodes, front, tail) && node !in nodes
    {
      ghost var was := nodes;
      assert LinkedAt(was, k);
      node.prev.next := node.next;
      if node.next != null {
        node.next.prev := node.prev;
      } else {
        tail := node.prev;
      }
      nodes := Without(nodes, k);
      forall i | 0 <= i < |nodes|
        ensures LinkedAt(nodes, i)
      {
        var j := if i < k then i else i + 1;
        assert nodes[i] == was[j];
        assert old(LinkedAt(was, j));
      }
    }

    /** Links a node that is not in the list before its front. */
    method LinkFront(node: ListNode<K, V>)
      requires node !in nodes
      requires if nodes == [] then front == null && tail == node else Linked(nodes, front, tail)
      modifies nodes`prev, node`prev, node`next, this`front, this`nodes
      ensures nodes == [node] + old(nodes) && Linked(nodes, front, tail)
    {
      node.prev := null;
      node.next := front;
      if front != null {
        front.prev := node;
      }
      front := node;
      ghost var was := nodes;
      nodes := [node] + nodes;
      forall i | 0 <= i < |nodes|
        ensures LinkedAt(nodes, i)
      {
        if i > 0 {
          assert nodes[i] == was[i - 1];
          assert old(LinkedAt(was, i - 1));
        }
      }
    }

    /** Moves a node to the front. */
    method LruTouch(node: ListNode<K, V>, ghost k: nat)
      requires Linked(nodes, front, tail) && k < |nodes| && nodes[k] == node
      modifies nodes`prev, nodes`next, this`front, this`tail, this`nodes
      ensures Linked(nodes, front, tail) && nodes == [node] + Without(old(nodes), k)
    {
      assert LinkedAt(nodes, k);
      if node.prev == null {
        return;
      }
      Detach(node, k);
      LinkFront(node);
    }

    method LruPush(node: ListNode<K, V>)
      requires Linked(nodes, front, tail) && node !in nodes
      modifies nodes`prev, node`prev, node`next, this`front, this`tail, this`nodes
      ensures Linked(nodes, front, tail) && nodes == [node] + old(nodes)
    {
      if tail == null {
        tail := node;
      }
      LinkFront(node);
    }

    method LruRemove(node: ListNode<K, V>, ghost k: nat)
      requires Linked(nodes, front, tail) && k < |nodes| && nodes[k] == node
      modifies nodes`prev, nodes`next, this`front, this`tail, this`nodes
      ensures Linked(nodes, front, tail) && nodes == Without(old(nodes), k)
    {
      ghost var was := nodes;
      assert LinkedAt(was, k);
      if node.prev != null {
        node.prev.next := node.next;
      }
      if node.next != null {
        node.next.prev := node.prev;
      }
      if front == node {
        front := node.next;
      }
      if tail == node {
        tail := node.prev;
      }
      nodes := Without(nodes, k);
      forall i | 0 <= i < |nodes|
        ensures LinkedAt(nodes, i)
      {
        var j := if i < k then i else i + 1;
        assert nodes[i] == was[j];
        assert old(LinkedAt(was, j));
      }
    }

    lemma NodesDistinct()
      requires Valid()
      ensures NoRepeats(nodes)
    {
    }

    lemma ContentsDistinct()
      requires Valid()
      ensures DistinctKeys(Contents())
    {
      PairsAt(nodes);
      forall i, j | 0 <= i < j < |nodes| ensures nodes[i].key != nodes[j].key {
        assert nodes[i] in nodes && nodes[j] in nodes;
      }
    }

    /** Where a key stands in the list, and in the recency list it represents. */
    ghost method Locate(key: K) returns (k: nat)
      requires Valid()
      ensures k <= |nodes| && NoRepeats(nodes)
      ensures key in searcher <==> k < |nodes|
      ensures k < |nodes| ==>
        && nodes[k] == searcher[key] && nodes[k].key == key && Contents()[k] == (key, nodes[k].value)
        && Lookup(Contents(), key) == Some(nodes[k].value) && Others(Contents(), key) == Without(Contents(), k)
      ensures k == |nodes| ==> Lookup(Contents(), key) == None && Others(Contents(), key) == Contents()
    {
      ContentsDistinct();
      PairsAt(nodes);
      if key in searcher {
        k :| 0 <= k < |nodes| && nodes[k] == searcher[key];
        AtIndex(Contents(), k);
      } else {
        k := |nodes|;
        forall i | 0 <= i < |nodes| ensures Contents()[i].0 != key {
          assert nodes[i] in nodes;
        }
        NotThere(Contents(), key);
      }
    }

    /** `lru_touch`, seen from outside. */
    method MoveToFront(node: ListNode<K, V>, ghost k: nat)
      requires Valid() && k < |nodes| && nodes[k] == node
      modifies nodes`prev, nodes`next, this`front, this`tail, this`nodes
      ensures Valid() && Within(nodes, old(nodes)) && Within(old(nodes), nodes)
      ensures Contents() == [old(Contents())[k]] + Without(old(Contents()), k)
    {
      hide Linked, NoRepeats, Indexed, Pairs, Without, Within;
      NodesDistinct();
      ghost var was := nodes;
      ghost var moved := [node] + Without(was, k);
      assert Within(moved, was) && Within(was, moved) by { WithoutWithin(was, k); }
      IndexedWithout(searcher, was, k);
      PairsWithout(was, k);
      LruTouch(node, k);
      assert nodes == moved && Pairs(moved) == old(Pairs(moved));
    }

    method Get(key: K) returns (r: Option<V>)
      requires Valid()
      modifies nodes`prev, nodes`next, this`front, this`tail, this`nodes
      ensures Valid() && Within(nodes, old(nodes)) && Within(old(nodes), nodes)
      ensures r == Lookup(old(Contents()), key)
      ensures Contents() == AfterGet(old(Contents()), key)
    {
      assert Within(nodes, nodes);
      hide Linked, Lookup, Others, NoRepeats, Within;
      ghost var k := Locate(key);
      if key !in searcher {
        return None;
      }
      var node := searcher[key];
      MoveToFront(node, k);
      r := Some(node.value);
    }

    method Put(key: K, value: V)
      requires Valid()
      modifies this, nodes
      ensures Valid() && forall n :: n in nodes && n !in old(nodes) ==> fresh(n)
      ensures Contents() == AfterPut(old(Contents()), key, value)
    {
      assert Within(nodes, nodes);
      hide Linked, Lookup, Others, NoRepeats, Within;
      ghost var k := Locate(key);
      if key in searcher {
        PutExisting(searcher[key], k, value);
      } else {
        PutNew(key, value);
      }
    }

    method PutExisting(node: ListNode<K, V>, ghost k: nat, value: V)
      requires Valid() && k < |nodes| && nodes[k] == node
      modifies nodes, this`front, this`tail, this`nodes
      ensures Valid() && Within(nodes, old(nodes)) && Within(old(nodes), nodes)
      ensures Contents() == [(node.key, value)] + Without(old(Contents()), k)
    {
      NodesDistinct();
      hide Linked;
      ghost var c := Contents();
      PairsAt(nodes);
      node.value := value;
      PairsAt(nodes);
      assert Contents() == c[k := (node.key, value)];
      MoveToFront(node, k);
    }

    method PutNew(key: K, value: V)
      requires Valid() && key !in searcher
      modifies nodes`prev, this
      ensures Valid() && forall n :: n in nodes && n !in old(nodes) ==> fresh(n)
      ensures Contents() == [(key, value)] + old(Contents())
    {
      hide Linked, Indexed, Pairs;
      var node := new ListNode(key, value);
      IndexedWith(searcher, nodes, node);
      PairsWith(nodes, node);
      LruPush(node);
      searcher := searcher[key := node];
    }

    /** `lru_remove`, seen from outside. */
    method RemoveNode(node: ListNode<K, V>, ghost k: nat)
      requires Valid() && k < |nodes| && nodes[k] == node
      modifies this, nodes`prev, nodes`next
      ensures Valid() && Within(nodes, old(nodes))
      ensures Contents() == Without(old(Contents()), k)
    {
      hide Linked, NoRepeats, Indexed, Pairs, Without, Within;
      NodesDistinct();
      ghost var was := nodes;
      ghost var left := Without(was, k);
      assert Within(left, was) by { WithoutWithin(was, k); }
      IndexedWithout(searcher, was, k);
      PairsWithout(was, k);
      LruRemove(node, k);
      assert Pairs(left) == old(Pairs(left));
      searcher := searcher - {node.key};
      assert nodes == left && Pairs(left) == old(Pairs(left));
    }

    method Remove(key: K)
      requires Valid()
      modifies this, nodes`prev, nodes`next
      ensures Valid() && Within(nodes, old(nodes))
      ensures Contents() == Others(old(Contents()), key)
    {
      assert Within(nodes, nodes);
      hide Linked, Lookup, Others, NoRepeats, Within;
      ghost var k := Locate(key);
      if key in searcher {
        RemoveNode(searcher[key], k);
      }
    }

    /** `foreach`: entries from the most recently used on, up to and including the first that `stops`. */
    method ForEach(stops: (K, V) -> bool) returns (visited: seq<(K, V)>)
      requires Valid()
      ensures visited <= Contents()
      ensures forall i :: 0 <= i < |visited| - 1 ==> !stops(visited[i].0, visited[i].1)
      ensures visited == Contents() || (visited != [] && stops(visited[|visited| - 1].0, visited[|visited| - 1].1))
    {
      PairsAt(nodes);
      hide Pairs;
      visited := [];
      var node := front;
      while node != null
        invariant |visited| <= |nodes| && visited == Contents()[..|visited|]
        invariant node == if |visited| == |nodes| then null else nodes[|visited|]
        invariant forall i :: 0 <= i < |visited| ==> !stops(visited[i].0, visited[i].1)
        decreases |nodes| - |visited|
      {
        assert LinkedAt(nodes, |visited|);
        visited := visited + [(node.key, node.value)];
        if stops(node.key, node.value) {
          break;
        }
        node := node.next;
      }
    }

    /** `foreach_reverse`: the same walk from the least recently used end, by the backward links. */
    method ForEachReverse(stops: (K, V) -> bool) returns (visited: seq<(K, V)>)
      requires Valid()
      ensures |visited| <= |Contents()|
      ensures forall i :: 0 <= i < |visited| ==> visited[i] == Contents()[|Contents()| - 1 - i]
      ensures forall i :: 0 <= i < |visited| - 1 ==> !stops(visited[i].0, visited[i].1)
      ensures |visited| == |Contents()| || (visited != [] && stops(visited[|visited| - 1].0, visited[|visited| - 1].1))
    {
      PairsAt(nodes);
      hide Pairs;
      visited := [];
      var node := tail;
      while node != null
        invariant |visited| <= |nodes|
        invariant forall i :: 0 <= i < |visited| ==> visited[i] == Contents()[|nodes| - 1 - i]
        invariant node == if |visited| == |nodes| then null else nodes[|nodes| - 1 - |visited|]
        invariant forall i :: 0 <= i < |visited| ==> !stops(visited[i].0, visited[i].1)
        decreases |nodes| - |visited|
      {
        assert LinkedAt(nodes, |nodes| - 1 - |visited|);
        visited := visited + [(node.key, node.value)];
        if stops(node.key, node.value) {
          break;
        }
        node := node.prev;
      }
    }
  }

  lemma WithoutWithin<T>(s: seq<T>, k: nat)
    requires k < |s| && NoRepeats(s)
    ensures Within(Without(s, k), s)
    ensures Within([s[k]] + Without(s, k), s) && Within(s, [s[k]] + Without(s, k))
  {
    WithoutMembers(s, k);
  }

  lemma WithoutMembers<T>(s: seq<T>, k: nat)
    requires k < |s| && NoRepeats(s)
    ensures forall x :: x in Without(s, k) <==> x in s && x != s[k]
    ensures forall x :: x in [s[k]] + Without(s, k) <==> x in s
  {
    assert s == s[..k] + [s[k]] + s[k + 1..];
  }
}
