// The intrusive circular doubly-linked list of d4np/ds/linked_list.c.
module LinkedList {
  class Node {
    var prev: Node?
    var next: Node?

    constructor ()
      ensures prev == null && next == null
    {
      prev, next := null, null;
    }
  }

  // `ring` starts and ends with the sentinel; neighbours point at each other.
  ghost predicate Ring(ring: seq<Node>)
    reads ring
  {
    forall i, j :: 0 <= i && j == i + 1 < |ring| ==> ring[i].next == ring[j] && ring[j].prev == ring[i]
  }

  ghost predicate Distinct(s: seq<Node>) {
    forall i, j :: 0 <= i < j < |s| ==> s[i] != s[j]
  }

  // A closed ring of distinct nodes around its sentinel.
  ghost predicate Closed(ring: seq<Node>) {
    |ring| >= 2 && ring[0] == ring[|ring| - 1] && Distinct(ring[1..])
  }

  // Splice `node` between the adjacent nodes at positions `k` and `k + 1`.
  method LinkBetween(node: Node, prev: Node, next: Node, ghost ring: seq<Node>, ghost k: nat)
    requires Ring(ring) && Closed(ring) && node !in ring
    requires k + 1 < |ring| && ring[k] == prev && ring[k + 1] == next
    modifies node, prev`next, next`prev
    ensures Ring(ring[..k + 1] + [node] + ring[k + 1..])
  {
    DistinctFronts(ring);
    node.prev := prev;
    node.next := next;
    prev.next := node;
    next.prev := node;
  }

  // Take the node at position `k` out of the ring.
  method Unlink(node: Node, ghost ring: seq<Node>, ghost k: nat)
    requires Ring(ring) && Closed(ring) && 0 < k < |ring| - 1 && ring[k] == node
    requires node.prev == ring[k - 1] && node.next == ring[k + 1]
    modifies node, node.prev`next, node.next`prev
    ensures Ring(ring[..k] + ring[k + 1..])
    ensures node.prev == null && node.next == null
  {
    DistinctFronts(ring);
    ghost var rest := ring[..k] + ring[k + 1..];
    assert forall i :: 0 <= i < |rest| ==> rest[i] == ring[if i < k then i else i + 1];
    var p, n := node.prev, node.next;
    p.next := n;
    n.prev := p;
    node.prev := null;
    node.next := null;
  }

  // In a closed ring the positions before the last are distinct as well.
  lemma DistinctFronts(ring: seq<Node>)
    requires Closed(ring)
    ensures forall i, j :: 0 <= i < j < |ring| - 1 ==> ring[i] != ring[j]
    ensures forall i, j :: 0 < i < j < |ring| ==> ring[i] != ring[j]
  {
    assert forall i :: 0 < i < |ring| ==> ring[i] == ring[1..][i - 1];
  }

  class List {
    const sentinel: Node
    var len: nat
    // The deque the list stands for.
    ghost var nodes: seq<Node>

    ghost function RingOf(): seq<Node>
      reads this
    {
      [sentinel] + nodes + [sentinel]
    }

    ghost predicate Valid()
      reads this, sentinel, nodes
    {
      && len == |nodes| && sentinel !in nodes && Distinct(nodes)
      && Ring(RingOf())
    }

    lemma ValidClosed()
      requires sentinel !in nodes && Distinct(nodes)
      ensures Closed(RingOf())
    {
      assert RingOf()[1..] == nodes + [sentinel];
    }

    // The links around position `k` of the ring; the members are positions 1 to |nodes|.
    lemma Neighbours(k: nat)
      requires Valid() && k <= |nodes|
      ensures RingOf()[k].next == RingOf()[k + 1] && RingOf()[k + 1].prev == RingOf()[k]
      ensures RingOf()[k] == if k == 0 then sentinel else nodes[k - 1]
      ensures RingOf()[k + 1] == if k == |nodes| then sentinel else nodes[k]
    {
      var ring, j := RingOf(), k + 1;
      assert ring[k].next == ring[j];
    }

    constructor ()
      ensures Valid() && nodes == [] && fresh(sentinel)
    {
      sentinel := new Node();
      len := 0;
      nodes := [];
      new;
      sentinel.next := sentinel;
      sentinel.prev := sentinel;
    }

    method PushFront(node: Node)
      requires Valid() && node !in nodes && node != sentinel
      modifies this, node, sentinel, sentinel.next
      ensures Valid() && nodes == [node] + old(nodes)
    {
      ValidClosed();
      ghost var ring := RingOf();
      Neighbours(0);
      LinkBetween(node, sentinel, sentinel.next, ring, 0);
      len := len + 1;
      nodes := [node] + nodes;
      assert RingOf() == ring[..1] + [node] + ring[1..];
    }

    method PushBack(node: Node)
      requires Valid() && node !in nodes && node != sentinel
      modifies this, node, sentinel, sentinel.prev
      ensures Valid() && nodes == old(nodes) + [node]
    {
      ValidClosed();
      ghost var ring := RingOf();
      ghost var k := |nodes|;
      Neighbours(k);
      LinkBetween(node, sentinel.prev, sentinel, ring, k);
      len := len + 1;
      nodes := nodes + [node];
      assert RingOf() == ring[..k + 1] + [node] + ring[k + 1..];
    }

    // O(1) removal of the member at position `k`.
    method RemoveAt(node: Node, ghost k: nat)
      requires Valid() && k < |nodes| && nodes[k] == node
      modifies this, node, node.prev, node.next
      ensures Valid() && nodes == old(nodes[..k] + nodes[k + 1..])
      ensures node.prev == null && node.next == null
    {
      ValidClosed();
      ghost var ring := RingOf();
      Neighbours(k);
      Neighbours(k + 1);
      Unlink(node, ring, k + 1);
      len := len - 1;
      nodes := nodes[..k] + nodes[k + 1..];
      assert RingOf() == ring[..k + 1] + ring[k + 2..];
    }

    method Remove(node: Node)
      requires Valid() && node in nodes
      modifies this, node, node.prev, node.next
      ensures Valid() && node.prev == null && node.next == null
      ensures exists k ::
                0 <= k < |old(nodes)| && old(nodes)[k] == node && nodes == old(nodes)[..k] + old(nodes)[k + 1..]
      ensures node !in nodes
    {
      ghost var k :| 0 <= k < |nodes| && nodes[k] == node;
      RemoveAt(node, k);
    }

    method PopFront() returns (node: Node?)
      requires Valid()
      modifies this, sentinel, nodes
      ensures Valid()
      ensures old(nodes) == [] ==> node == null && nodes == []
      ensures old(nodes) != [] ==> node == old(nodes[0]) && nodes == old(nodes[1..])
      ensures node != null ==> node.prev == null && node.next == null
    {
      if len == 0 {
        return null;
      }
      Neighbours(0);
      Neighbours(1);
      node := sentinel.next;
      RemoveAt(node, 0);
    }

    method PopBack() returns (node: Node?)
      requires Valid()
      modifies this, sentinel, nodes
      ensures Valid()
      ensures old(nodes) == [] ==> node == null && nodes == []
      ensures old(nodes) != [] ==> node == old(nodes[|nodes| - 1]) && nodes == old(nodes[..|nodes| - 1])
      ensures node != null ==> node.prev == null && node.next == null
    {
      if len == 0 {
        return null;
      }
      Neighbours(|nodes| - 1);
      Neighbours(|nodes|);
      node := sentinel.prev;
      RemoveAt(node, |nodes| - 1);
    }

    // Forward iteration visits exactly the deque, in order.
    method Forward() returns (s: seq<Node>)
      requires Valid()
      ensures s == nodes
    {
      ghost var ring := RingOf();
      Neighbours(0);
      var node := sentinel.next;
      s := [];
      while node != sentinel
        invariant |s| <= |nodes| && s == nodes[..|s|] && node == ring[|s| + 1]
        decreases |nodes| - |s|
      {
        Neighbours(|s| + 1);
        s := s + [node];
        node := node.next;
      }
    }

    // Backward iteration visits it in reverse.
    method Backward() returns (s: seq<Node>)
      requires Valid()
      ensures |s| == |nodes| && forall i :: 0 <= i < |s| ==> s[i] == nodes[|nodes| - 1 - i]
    {
      ghost var ring := RingOf();
      ghost var n := |nodes|;
      Neighbours(n);
      var node := sentinel.prev;
      s := [];
      while node != sentinel
        invariant |s| <= n && node == ring[n - |s|]
        invariant forall i :: 0 <= i < |s| ==> s[i] == nodes[n - 1 - i]
        decreases n - |s|
      {
        Neighbours(n - |s| - 1);
        s := s + [node];
        node := node.prev;
      }
    }
  }
}
