/** The doubly linked list in which Cache keeps its entries in order of use. */
module RecencyList {

  class Node<T> {
    const value: T
    var next: Node?<T>
    var previous: Node?<T>

    constructor (value: T)
      ensures this.value == value && next == null && previous == null
    {
      this.value, next, previous := value, null, null;
    }
  }

  /** The node at position i, or null beyond the ends. */
  ghost function NodeAt<T>(nodes: seq<Node<T>>, i: int): Node?<T> {
    if 0 <= i < |nodes| then nodes[i] else null
  }

  ghost predicate Distinct<T>(nodes: seq<Node<T>>) {
    forall i, j :: 0 <= i < j < |nodes| ==> nodes[i] != nodes[j]
  }

  /** The sequence without its element at position k. */
  function Without<T>(s: seq<T>, k: nat): seq<T>
    requires k < |s|
  {
    s[..k] + s[k + 1..]
  }

  lemma WithoutDistinct<T>(nodes: seq<Node<T>>, k: nat)
    requires k < |nodes| && Distinct(nodes)
    ensures Distinct(Without(nodes, k)) && nodes[k] !in Without(nodes, k)
  {}

  /** The node at position i points to its neighbours. */
  ghost predicate Linked<T>(nodes: seq<Node<T>>, i: nat)
    requires i < |nodes|
    reads nodes[i]
  {
    nodes[i].next == NodeAt(nodes, i + 1) && nodes[i].previous == NodeAt(nodes, i - 1)
  }

  /** The node at position i points to its neighbours in the list without position k. */
  ghost predicate Bypassed<T>(nodes: seq<Node<T>>, k: nat, i: nat)
    requires i < |nodes|
    reads nodes[i]
  {
    && nodes[i].next == NodeAt(nodes, if i + 1 == k then k + 1 else i + 1)
    && nodes[i].previous == NodeAt(nodes, if i == k + 1 then k - 1 else i - 1)
  }

  class LinkedList<T> {
    var first: Node?<T>
    var last: Node?<T>
    /** The nodes of the list, in order. */
    ghost var nodes: seq<Node<T>>
    /** The nodes that the list may write. */
    ghost var repr: set<Node<T>>

    ghost predicate Valid()
      reads this, repr
    {
      && (forall i :: 0 <= i < |nodes| ==> nodes[i] in repr)
      && Distinct(nodes)
      && first == NodeAt(nodes, 0)
      && last == NodeAt(nodes, |nodes| - 1)
      && forall i :: 0 <= i < |nodes| ==> Linked(nodes, i)
    }

    constructor ()
      ensures Valid() && nodes == [] && repr == {}
    {
      first, last, nodes, repr := null, null, [], {};
    }

    /** append(_: Node) */
    method Append(node: Node<T>)
      requires Valid() && node !in nodes && node.next == null && node.previous == null
      modifies this, node, repr
      ensures Valid() && nodes == old(nodes) + [node] && repr == old(repr) + {node}
    {
      ghost var n := |nodes|;
      assert n != 0 ==> Linked(nodes, n - 1);
      if last != null {
        last.next := node;
        node.previous := last;
        last := node;
      } else {
        last := node;
        first := node;
      }
      nodes, repr := nodes + [node], repr + {node};
      forall i | 0 <= i < |nodes| ensures Linked(nodes, i) {
        if i < n - 1 {
          assert old(Linked(nodes, i)) && nodes[i] != nodes[n - 1];
        }
      }
    }

    /** remove(_:) for the node at position k. */
    method Remove(node: Node<T>, ghost k: nat)
      requires Valid() && k < |nodes| && nodes[k] == node
      modifies this, repr
      ensures Valid() && nodes == Without(old(nodes), k) && repr == old(repr)
      ensures node.next == null && node.previous == null && node !in nodes
    {
      ghost var all := nodes;
      Unlink(node, k);
      nodes := Without(all, k);
      WithoutDistinct(all, k);
      forall i | 0 <= i < |nodes| ensures Linked(nodes, i) {
        assert Bypassed(all, k, if i < k then i else i + 1);
      }
    }

    /** Takes a node out of the chain. */
    method Unlink(node: Node<T>, ghost k: nat)
      requires Valid() && k < |nodes| && nodes[k] == node
      modifies this`first, this`last, repr
      ensures node.next == null && node.previous == null
      ensures first == NodeAt(nodes, if k == 0 then 1 else 0)
      ensures last == NodeAt(nodes, if k == |nodes| - 1 then k - 1 else |nodes| - 1)
      ensures forall i :: 0 <= i < |nodes| && i != k ==> Bypassed(nodes, k, i)
    {
      var next, previous := node.next, node.previous;
      assert Linked(nodes, k);
      assert node == last <==> k == |nodes| - 1;
      assert node == first <==> k == 0;
      if next != null { next.previous := previous; }
      if previous != null { previous.next := next; }
      if node == last { last := previous; }
      if node == first { first := next; }
      node.next := null;
      node.previous := null;
      forall i | 0 <= i < |nodes| && i != k ensures Bypassed(nodes, k, i) {
        assert old(Linked(nodes, i));
        assert nodes[i] == next <==> i == k + 1;
        assert nodes[i] == previous <==> i == k - 1;
      }
    }

    /** removeAll(), which also takes the nodes apart. */
    method RemoveAll()
      requires Valid()
      modifies this, repr
      ensures Valid() && nodes == [] && repr == old(repr)
      ensures forall n :: n in old(nodes) ==> n.next == null && n.previous == null
    {
      var node := first;
      ghost var all := nodes;
      ghost var i: nat := 0;
      assert all != [] ==> Linked(all, 0);
      while node != null && node.next != null
        invariant nodes == all == old(nodes) && Distinct(all) && repr == old(repr)
        invariant node == NodeAt(all, i) && (all != [] ==> i < |all|)
        invariant node != null ==> node.previous == null
        invariant forall j :: 0 <= j < i && j < |all| ==> all[j].next == null && all[j].previous == null
        invariant forall j :: i <= j < |all| ==> all[j].next == old(all[j].next)
        decreases |all| - i
      {
        var next := node.next;
        assert old(Linked(all, i)) && next == NodeAt(all, i + 1);
        node.next := null;
        next.previous := null;
        node := next;
        i := i + 1;
      }
      assert all != [] ==> old(Linked(all, i));
      last := null;
      first := null;
      nodes := [];
    }
  }
}
