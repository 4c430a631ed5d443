/** Singly linked lists with a head and a tail pointer, as both queues of the server use them. */
module Chain {

  class Node<T> {
    const data: T
    var next: Node?<T>

    constructor (data: T)
      ensures this.data == data && next == null
    {
      this.data := data;
      next := null;
    }
  }

  /**
   `nodes` are exactly the nodes reachable from `head`, each once, and `tail` is the last
   of them; both pointers are null when there are none.
   */
  ghost predicate IsList<T>(head: Node?<T>, tail: Node?<T>, nodes: seq<Node<T>>)
    reads nodes
  {
    && (nodes == [] ==> head == null && tail == null)
    && (nodes != [] ==> head == nodes[0] && tail == nodes[|nodes|-1] && nodes[|nodes|-1].next == null)
    && (forall i | 0 <= i < |nodes| - 1 :: nodes[i].next == nodes[i+1])
    && (forall i, j | 0 <= i < j < |nodes| :: nodes[i] != nodes[j])
  }

  /** The elements of a list, from head to tail. */
  ghost function Elements<T>(nodes: seq<Node<T>>): (es: seq<T>)
    ensures |es| == |nodes| && forall i | 0 <= i < |nodes| :: es[i] == nodes[i].data
  {
    seq(|nodes|, i requires 0 <= i < |nodes| => nodes[i].data)
  }

  /** The node reached from `n` by following `next` `steps` times. */
  ghost function Follow<T>(n: Node?<T>, steps: nat, heap: set<Node<T>>): Node?<T>
    requires n == null || n in heap
    requires forall x | x in heap :: x.next == null || x.next in heap
    reads heap
    decreases steps
  {
    if n == null || steps == 0 then n else Follow(n.next, steps - 1, heap)
  }

  /**
   What `IsList` says of the pointers alone: following `next` from the head visits the
   nodes in order and then reaches null, so the list is acyclic and ends at the tail.
   */
  lemma {:induction false} FollowsList<T>(head: Node?<T>, tail: Node?<T>, nodes: seq<Node<T>>, steps: nat)
    requires IsList(head, tail, nodes)
    ensures var heap := set n | n in nodes;
            && (head == null || head in heap)
            && (forall x | x in heap :: x.next == null || x.next in heap)
            && Follow(head, steps, heap) == (if steps < |nodes| then nodes[steps] else null)
  {
    var heap := set n | n in nodes;
    if nodes != [] {
      assert head in heap;
      NextInHeap(head, tail, nodes);
      FollowFrom(head, tail, nodes, 0, steps);
    }
  }

  lemma NextInHeap<T>(head: Node?<T>, tail: Node?<T>, nodes: seq<Node<T>>)
    requires IsList(head, tail, nodes)
    ensures forall x | x in nodes :: x.next == null || x.next in nodes
  {
    forall x | x in nodes ensures x.next == null || x.next in nodes {
      var i :| 0 <= i < |nodes| && nodes[i] == x;
      if i < |nodes| - 1 { assert x.next == nodes[i+1]; }
    }
  }

  lemma {:induction false} FollowFrom<T>(head: Node?<T>, tail: Node?<T>, nodes: seq<Node<T>>, i: nat, steps: nat)
    requires IsList(head, tail, nodes) && i < |nodes|
    requires forall x | x in nodes :: x.next == null || x.next in nodes
    ensures Follow(nodes[i], steps, set n | n in nodes) == if i + steps < |nodes| then nodes[i + steps] else null
    decreases steps
  {
    if steps == 0 || i == |nodes| - 1 {
    } else {
      assert nodes[i].next == nodes[i+1];
      FollowFrom(head, tail, nodes, i + 1, steps - 1);
    }
  }
}
