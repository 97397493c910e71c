/** The doubly linked tail queue of sys/queue.h, as src/compartment-manager/enclave_manager.cpp uses
    it.  A back link, which in C points to the predecessor's forward link or to the head, is the
    predecessor here, or null for the head. */
module TailQueues {
  class Node<T> {
    const data: T
    var next: Node?<T>
    var prev: Node?<T>

    constructor (data: T)
      ensures this.data == data
    {
      this.data := data;
      next, prev := null, null;
    }
  }

  class TailQueue<T> {
    var first: Node?<T>
    var last: Node?<T>
    ghost var nodes: seq<Node<T>>

    ghost predicate Valid()
      reads this, nodes
    {
      && (nodes == [] ==> first == null && last == null)
      && (nodes != [] ==> first == nodes[0] && last == nodes[|nodes| - 1])
      && (forall i {:trigger nodes[i].next} :: 0 <= i < |nodes| ==>
            nodes[i].next == if i + 1 < |nodes| then nodes[i + 1] else null)
      && (forall i {:trigger nodes[i].prev} :: 0 <= i < |nodes| ==>
            nodes[i].prev == if i > 0 then nodes[i - 1] else null)
      && forall i, j :: 0 <= i < j < |nodes| ==> nodes[i] != nodes[j]
    }

    constructor ()
      ensures Valid() && nodes == []
    {
      first, last, nodes := null, null, [];
    }

    // TAILQ_INSERT_TAIL
    method InsertTail(x: Node<T>)
      requires Valid() && x !in nodes
      modifies this, nodes, x
      ensures Valid() && nodes == old(nodes) + [x]
    {
      x.next := null;
      x.prev := last;
      if last == null {
        first := x;
      } else {
        last.next := x;
      }
      last := x;
      nodes := nodes + [x];
    }

    // TAILQ_REMOVE
    method Remove(x: Node<T>, ghost k: nat)
      requires Valid() && k < |nodes| && nodes[k] == x
      modifies this, nodes
      ensures Valid() && nodes == old(nodes)[..k] + old(nodes)[k + 1..]
    {
      if x.next != null {
        x.next.prev := x.prev;
      } else {
        last := x.prev;
      }
      if x.prev != null {
        x.prev.next := x.next;
      } else {
        first := x.next;
      }
      nodes := nodes[..k] + nodes[k + 1..];
    }
  }
}
