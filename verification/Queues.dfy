/** Circular doubly linked lists (src/list.c) and the task queues on them (src/queue.c). */
module Queues {
  class Node {
    var next: Node
    var prev: Node

    /** INIT_LIST_HEAD */
    constructor ()
      ensures next == this && prev == this
    {
      next, prev := this, this;
    }
  }

  ghost predicate Distinct(r: seq<Node>) {
    forall i, j :: 0 <= i < j < |r| ==> r[i] != r[j]
  }

  /** The neighbour of position i around the ring. */
  ghost function After(r: seq<Node>, i: nat): Node
    requires i < |r|
  {
    if i + 1 < |r| then r[i + 1] else r[0]
  }

  /** The nodes point at each other in this order, and the last at the first. */
  ghost predicate Ring(r: seq<Node>)
    reads r
  {
    |r| >= 1 && Distinct(r) && forall i :: 0 <= i < |r| ==> r[i].next == After(r, i) && After(r, i).prev == r[i]
  }

  /** list_add_tail: the new node goes behind the last one. */
  method AddTail(node: Node, head: Node, ghost r: seq<Node>)
    requires Ring(r) && r[0] == head && node !in r
    modifies node, r
    ensures Ring(r + [node])
  {
    var prev := head.prev;
    assert prev == r[|r| - 1] by { assert After(r, |r| - 1) == head; }
    node.next := head;
    node.prev := prev;
    prev.next := node;
    head.prev := node;
    ghost var q := r + [node];
    forall i | 0 <= i < |q|
      ensures q[i].next == After(q, i) && After(q, i).prev == q[i]
    {
    }
  }

  /** list_del: the neighbours of an entry are joined. */
  method Del(entry: Node, ghost r: seq<Node>, ghost k: nat)
    requires Ring(r) && 1 <= k < |r| && r[k] == entry
    modifies r
    ensures Ring(r[..k] + r[k + 1..])
  {
    assert entry.prev == r[k - 1] by { assert After(r, k - 1) == entry; }
    assert entry.next == After(r, k);
    entry.next.prev := entry.prev;
    entry.prev.next := entry.next;
    ghost var q := r[..k] + r[k + 1..];
    forall i | 0 <= i < |q|
      ensures q[i].next == After(q, i) && After(q, i).prev == q[i]
    {
      ghost var j := if i < k then i else i + 1;
      assert q[i] == r[j];
    }
  }

  class Queue {
    const head: Node
    var nr: nat
    ghost var nodes: seq<Node>

    ghost predicate Valid()
      reads this, [head] + nodes
    {
      Ring([head] + nodes) && nr == |nodes|
    }

    /** QUEUE_INIT */
    constructor ()
      ensures Valid() && nodes == [] && fresh(head)
    {
      head := new Node();
      nr := 0;
      nodes := [];
    }

    /** queue_empty */
    method Empty() returns (b: bool)
      requires Valid()
      ensures b <==> nodes == []
    {
      assert ([head] + nodes)[0] == head;
      assert After([head] + nodes, 0) == if nodes == [] then head else nodes[0];
      assert nodes != [] ==> ([head] + nodes)[1] == nodes[0];
      b := head.next == head;
    }

    /** queue_enqueue: at the tail. */
    method Enqueue(node: Node)
      requires Valid() && node != head && node !in nodes
      modifies this, [head] + nodes, node
      ensures Valid() && nodes == old(nodes) + [node]
    {
      nr := nr + 1;
      ghost var r := [head] + nodes;
      AddTail(node, head, r);
      nodes := nodes + [node];
      assert r + [node] == [head] + nodes;
    }

    /** queue_dequeue: from the front; none exactly when the queue is empty. */
    method Dequeue() returns (node: Node?)
      requires Valid()
      modifies this, [head] + nodes
      ensures Valid()
      ensures old(nodes) == [] ==> node == null && nodes == []
      ensures old(nodes) != [] ==> node == old(nodes)[0] && nodes == old(nodes)[1..]
    {
      var empty := Empty();
      node := null;
      if !empty {
        nr := nr - 1;
        ghost var r := [head] + nodes;
        assert r[0] == head && r[1] == nodes[0] && After(r, 0) == nodes[0];
        node := head.next;
        Del(node, r, 1);
        nodes := nodes[1..];
        assert r[..1] + r[2..] == [head] + nodes;
      }
    }
  }
}
