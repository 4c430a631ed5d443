/** The main thread's queue of jobs that no worker was free to take. */
module MsgQueues {
  import opened Options
  import opened Chain

  class MsgQueue<T> {
    var head: Node?<T>
    var tail: Node?<T>
    var size: int
    ghost var nodes: seq<Node<T>>

    ghost function Nodes(): set<Node<T>>
      reads this
    {
      set n | n in nodes
    }

    /** The stored size is the length of the list from `head` to `tail`. */
    ghost predicate Valid()
      reads this, Nodes()
    {
      IsList(head, tail, nodes) && size == |nodes|
    }

    ghost function Contents(): (r: seq<T>)
      reads this
      ensures |r| == |nodes|
    {
      Elements(nodes)
    }

    constructor ()
      ensures Valid() && Contents() == [] && nodes == []
    {
      head, tail, size := null, null, 0;
      nodes := [];
    }

    method QueueSize() returns (n: int)
      requires Valid()
      ensures n == |Contents()|
    {
      n := size;
    }

    method Enqueue(data: T)
      requires Valid()
      modifies this, Nodes()
      ensures Valid() && Contents() == old(Contents()) + [data]
      ensures fresh(Nodes() - old(Nodes()))
    {
      var node := new Node(data);
      if size == 0 {
        head, tail, size := node, node, 1;
        nodes := [node];
      } else {
        assert forall i | 0 <= i < |nodes| - 1 :: nodes[i] != tail;
        tail.next := node;
        tail := node;
        size := size + 1;
        nodes := nodes + [node];
      }
    }

    /** Nothing when the queue is empty, otherwise its oldest element. */
    method Dequeue() returns (r: Option<T>)
      requires Valid()
      modifies this
      ensures Valid()
      ensures old(Contents()) == [] ==> r == None && Contents() == []
      ensures old(Contents()) != [] ==> r == Some(old(Contents())[0]) && Contents() == old(Contents())[1..]
    {
      if size == 0 {
        return None;
      }
      assert |nodes| > 1 ==> nodes[0].next == nodes[1];
      r := Some(head.data);
      head := head.next;
      size := size - 1;
      if head == null {
        tail := null;
      }
      nodes := nodes[1..];
      assert forall i | 0 <= i < |nodes| :: nodes[i] == old(nodes)[i+1];
    }
  }
}
