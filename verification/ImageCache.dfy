/** The Cache class behind ImageCache: a dictionary of list nodes, a list in order of use, and a total. */
module ImageCaching {
  import opened Basics
  import opened Lru
  import opened RecencyList

  /** The entries of a list of nodes. */
  ghost function EntriesOf<K, V>(nodes: seq<Node<Entry<K, V>>>): (s: seq<Entry<K, V>>)
    ensures |s| == |nodes| && forall i :: 0 <= i < |s| ==> s[i] == nodes[i].value
  {
    seq(|nodes|, i requires 0 <= i < |nodes| => nodes[i].value)
  }

  /** The dictionary has as many keys as there are nodes, and files each of them under the key of its entry. */
  ghost predicate Indexed<K, V>(index: map<K, Node<Entry<K, V>>>, nodes: seq<Node<Entry<K, V>>>) {
    && |index| == |nodes|
    && forall i :: 0 <= i < |nodes| ==> nodes[i].value.key in index && index[nodes[i].value.key] == nodes[i]
  }

  lemma SizeWithout<K, V>(m: map<K, V>, k: K)
    requires k in m
    ensures |m - {k}| == |m| - 1
  {
    assert m.Keys == (m - {k}).Keys + {k};
    assert |m.Keys| == |(m - {k}).Keys| + 1;
    assert |m| == |m.Keys| && |m - {k}| == |(m - {k}).Keys|;
  }

  lemma IndexedWithout<K, V>(index: map<K, Node<Entry<K, V>>>, nodes: seq<Node<Entry<K, V>>>, k: nat)
    requires Indexed(index, nodes) && Distinct(nodes) && k < |nodes|
    ensures Indexed(index - {nodes[k].value.key}, Without(nodes, k))
    ensures EntriesOf(Without(nodes, k)) == Without(EntriesOf(nodes), k)
  {
    var nodes' := Without(nodes, k);
    SizeWithout(index, nodes[k].value.key);
    forall i | 0 <= i < |nodes'| ensures nodes'[i].value.key in index - {nodes[k].value.key} {
      assert nodes'[i] == nodes[if i < k then i else i + 1];
    }
  }

  lemma IndexedAppend<K, V>(index: map<K, Node<Entry<K, V>>>, nodes: seq<Node<Entry<K, V>>>, node: Node<Entry<K, V>>)
    requires Indexed(index, nodes) && node.value.key !in index
    ensures Indexed(index[node.value.key := node], nodes + [node])
    ensures EntriesOf(nodes + [node]) == EntriesOf(nodes) + [node.value]
  {
    SizeWithout(index[node.value.key := node], node.value.key);
    assert index[node.value.key := node] - {node.value.key} == index;
  }

  /** Nothing but the nodes is in the dictionary. */
  lemma {:induction false} IndexedOnly<K, V>(index: map<K, Node<Entry<K, V>>>, nodes: seq<Node<Entry<K, V>>>, key: K)
    requires Indexed(index, nodes) && Distinct(nodes) && key in index
    ensures exists i :: 0 <= i < |nodes| && nodes[i].value.key == key
    decreases |nodes|
  {
    assert |index| == |index.Keys|;
    assert |index.Keys| == 0 ==> index.Keys == {};
    if nodes[0].value.key != key {
      IndexedWithout(index, nodes, 0);
      WithoutDistinct(nodes, 0);
      IndexedOnly(index - {nodes[0].value.key}, Without(nodes, 0), key);
    }
  }

  /** The node that the dictionary has for a key is where the list has its entry. */
  lemma IndexedFind<K, V>(index: map<K, Node<Entry<K, V>>>, nodes: seq<Node<Entry<K, V>>>, key: K)
    requires Indexed(index, nodes) && Distinct(nodes)
    ensures var i := Find(EntriesOf(nodes), key);
            if key in index then i < |nodes| && nodes[i] == index[key] else i == |nodes|
  {
    var i := Find(EntriesOf(nodes), key);
    if key in index {
      IndexedOnly(index, nodes, key);
      var k :| 0 <= k < |nodes| && nodes[k].value.key == key;
      assert EntriesOf(nodes)[k].key == key;
    }
  }

  class Cache<K(==), V> {
    var index: map<K, Node<Entry<K, V>>>
    const list: LinkedList<Entry<K, V>>
    var costLimit: int
    var countLimit: int
    var totalCost: int
    var ttl: int

    ghost function Entries(): seq<Entry<K, V>>
      reads this, list
    {
      EntriesOf(list.nodes)
    }

    /** The dictionary and the list hold the same nodes, and the total is the sum of their costs. */
    ghost predicate Valid()
      reads this, list, list.repr
    {
      list.Valid() && Indexed(index, list.nodes) && totalCost == TotalCost(Entries())
    }

    constructor (costLimit: int, countLimit: int)
      ensures Valid() && Entries() == [] && fresh(list)
      ensures this.costLimit == costLimit && this.countLimit == countLimit && ttl == 0
    {
      index := map[];
      list := new LinkedList();
      this.costLimit, this.countLimit, totalCost, ttl := costLimit, countLimit, 0, 0;
    }

    //////////////////////////////////////////////////////////////////////////
    // Nodes
    //////////////////////////////////////////////////////////////////////////

    /** _remove(node:) */
    method RemoveNode(node: Node<Entry<K, V>>, ghost k: nat)
      requires Valid() && k < |list.nodes| && list.nodes[k] == node
      modifies this`index, this`totalCost, list, list.repr
      ensures Valid() && list.nodes == Without(old(list.nodes), k) && list.repr == old(list.repr)
      ensures index == old(index) - {node.value.key}
      ensures Entries() == Without(old(Entries()), k)
    {
      ghost var all := list.nodes;
      TotalWithout(EntriesOf(all), k);
      IndexedWithout(index, all, k);
      list.Remove(node, k);
      assert list.nodes == Without(all, k);
      index := index - {node.value.key};
      totalCost := totalCost - node.value.cost;
    }

    /** _add(_:) */
    method AddEntry(e: Entry<K, V>)
      requires Valid()
      modifies this`index, this`totalCost, list, list.repr
      ensures Valid() && fresh(list.repr - old(list.repr))
      ensures Entries() == Insert(old(Entries()), e)
    {
      IndexedFind(index, list.nodes, e.key);
      if e.key in index {
        RemoveNode(index[e.key], Find(Entries(), e.key));
      }
      AppendEntry(e);
    }

    method AppendEntry(e: Entry<K, V>)
      requires Valid() && e.key !in index
      modifies this`index, this`totalCost, list, list.repr
      ensures Valid() && fresh(list.repr - old(list.repr))
      ensures Entries() == old(Entries()) + [e]
    {
      ghost var all := list.nodes;
      TotalAppend(EntriesOf(all), e);
      var node := new Node(e);
      IndexedAppend(index, all, node);
      list.Append(node);
      assert list.nodes == all + [node];
      index := index[e.key := node];
      totalCost := totalCost + e.cost;
    }

    //////////////////////////////////////////////////////////////////////////
    // Trimming
    //////////////////////////////////////////////////////////////////////////

    /** Removes the least recently used entry. */
    method RemoveFirst()
      requires Valid() && list.first != null
      modifies this`index, this`totalCost, list, list.repr
      ensures Valid() && list.repr == old(list.repr)
      ensures Entries() == old(Entries())[1..] && list.nodes == old(list.nodes)[1..]
      ensures old(Entries()) != []
    {
      RemoveNode(list.first, 0);
    }

    /** _trim(toCost:) */
    method TrimToCost(limit: int)
      requires Valid()
      modifies this`index, this`totalCost, list, list.repr
      ensures Valid() && list.repr == old(list.repr)
      ensures Entries() == TrimCost(old(Entries()), limit)
    {
      while totalCost > limit && list.first != null
        invariant Valid() && list.repr == old(list.repr)
        invariant TrimCost(Entries(), limit) == TrimCost(old(Entries()), limit)
        decreases |list.nodes|
      {
        RemoveFirst();
      }
    }

    /** _trim(toCount:) */
    method TrimToCount(limit: int)
      requires Valid()
      modifies this`index, this`totalCost, list, list.repr
      ensures Valid() && list.repr == old(list.repr)
      ensures Entries() == TrimCount(old(Entries()), limit)
    {
      while |index| > limit && list.first != null
        invariant Valid() && list.repr == old(list.repr)
        invariant TrimCount(Entries(), limit) == TrimCount(old(Entries()), limit)
        decreases |list.nodes|
      {
        RemoveFirst();
      }
    }

    /** _trim(): to the cost limit, then to the count limit. */
    method TrimToLimits()
      requires Valid()
      modifies this`index, this`totalCost, list, list.repr
      ensures Valid() && list.repr == old(list.repr)
      ensures Entries() == Trim(old(Entries()), costLimit, countLimit)
    {
      TrimToCost(costLimit);
      TrimToCount(countLimit);
    }

    //////////////////////////////////////////////////////////////////////////
    // Operations
    //////////////////////////////////////////////////////////////////////////

    /** value(forKey:) */
    method ValueFor(key: K, now: int) returns (result: Option<V>)
      requires Valid()
      modifies this`index, this`totalCost, list, list.repr
      ensures Valid() && Entries() == Hit(old(Entries()), key, now)
      ensures result == ValueOf(old(Entries()), key, now)
    {
      IndexedFind(index, list.nodes, key);
      if key !in index { return None; }
      var node := index[key];
      ghost var k := Find(Entries(), key);
      if node.value.Expired(now) {
        RemoveNode(node, k);
        return None;
      }
      MoveToEnd(node, k);
      return Some(node.value.value);
    }

    /** Takes a node out of the list and puts it back as the most recently used one. */
    method MoveToEnd(node: Node<Entry<K, V>>, ghost k: nat)
      requires Valid() && k < |list.nodes| && list.nodes[k] == node
      modifies list, list.repr
      ensures Valid() && list.repr == old(list.repr)
      ensures Entries() == Without(old(Entries()), k) + [node.value]
    {
      ghost var moved := Without(list.nodes, k) + [node];
      IndexedMove(index, list.nodes, k);
      list.Remove(node, k);
      list.Append(node);
      assert list.nodes == moved;
    }

    /** set(_:forKey:cost:ttl:) */
    method SetValue(value: V, key: K, cost: int, ttl: Option<int>, now: int)
      requires Valid()
      modifies this`index, this`totalCost, list, list.repr
      ensures Valid()
      ensures var t := if ttl.Some? then ttl.value else this.ttl;
              var e := Entry(value, key, cost, if t == 0 then None else Some(now + t));
              Entries() == Trim(Insert(old(Entries()), e), costLimit, countLimit)
    {
      var t := if ttl.Some? then ttl.value else this.ttl;
      AddEntry(Entry(value, key, cost, if t == 0 then None else Some(now + t)));
      TrimToLimits();
    }

    /** removeValue(forKey:) */
    method RemoveValueFor(key: K) returns (result: Option<V>)
      requires Valid()
      modifies this`index, this`totalCost, list, list.repr
      ensures Valid() && Entries() == Delete(old(Entries()), key)
      ensures var i := Find(old(Entries()), key);
              result == if i < |old(Entries())| then Some(old(Entries())[i].value) else None
    {
      IndexedFind(index, list.nodes, key);
      if key !in index { return None; }
      var node := index[key];
      ghost var k := Find(Entries(), key);
      RemoveNode(node, k);
      return Some(node.value.value);
    }

    /** removeAll() */
    method Clear()
      requires Valid()
      modifies this`index, this`totalCost, list, list.repr
      ensures Valid() && Entries() == []
    {
      index := map[];
      list.RemoveAll();
      totalCost := 0;
    }

    method SetCostLimit(limit: int)
      requires Valid()
      modifies this`index, this`totalCost, this`costLimit, list, list.repr
      ensures Valid() && costLimit == limit && Entries() == Trim(old(Entries()), limit, countLimit)
    {
      costLimit := limit;
      TrimToLimits();
    }

    method SetCountLimit(limit: int)
      requires Valid()
      modifies this`index, this`totalCost, this`countLimit, list, list.repr
      ensures Valid() && countLimit == limit && Entries() == Trim(old(Entries()), costLimit, limit)
    {
      countLimit := limit;
      TrimToLimits();
    }
  }

  lemma IndexedMove<K, V>(index: map<K, Node<Entry<K, V>>>, nodes: seq<Node<Entry<K, V>>>, k: nat)
    requires Indexed(index, nodes) && Distinct(nodes) && k < |nodes|
    ensures var moved := Without(nodes, k) + [nodes[k]];
            && Indexed(index, moved)
            && EntriesOf(moved) == Without(EntriesOf(nodes), k) + [nodes[k].value]
            && TotalCost(EntriesOf(moved)) == TotalCost(EntriesOf(nodes))
  {
    var key := nodes[k].value.key;
    IndexedWithout(index, nodes, k);
    IndexedAppend(index - {key}, Without(nodes, k), nodes[k]);
    assert (index - {key})[key := nodes[k]] == index;
    TotalWithout(EntriesOf(nodes), k);
    TotalAppend(Without(EntriesOf(nodes), k), nodes[k].value);
  }
}
