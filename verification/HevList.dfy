/** The doubly linked list behind the order of use. */
module HevList {

  class ListNode<T> {
    const item: T
    var next: ListNode?<T>
    var prev: ListNode?<T>

    constructor (item: T)
      ensures this.item == item
    {
      this.item := item;
      next, prev := null, null;
    }
  }

  class List<T> {
    var head: ListNode?<T>
    var tail: ListNode?<T>
    ghost var nodes: seq<ListNode<T>>
    ghost var repr: set<ListNode<T>>

    /** `nodes` is what the links spell, in both directions. */
    ghost predicate Valid()
      reads this, repr
    {
      && repr == (set n | n in nodes)
      && (forall i, j :: 0 <= i < j < |nodes| ==> nodes[i] != nodes[j])
      && head == (if nodes == [] then null else nodes[0])
      && tail == (if nodes == [] then null else nodes[|nodes| - 1])
      && (forall i {:trigger nodes[i].next} :: 0 <= i < |nodes| ==> nodes[i].next == if i + 1 < |nodes| then nodes[i + 1] else null)
      && (forall i {:trigger nodes[i].prev} :: 0 <= i < |nodes| ==> nodes[i].prev == if i > 0 then nodes[i - 1] else null)
    }

    constructor ()
      ensures Valid() && nodes == []
    {
      head, tail, nodes, repr := null, null, [], {};
    }

    method AddTail(node: ListNode<T>)
      requires Valid() && node !in nodes
      modifies this, node, repr
      ensures Valid() && nodes == old(nodes) + [node] && repr == old(repr) + {node}
    {
      node.prev := tail;
      node.next := null;
      if tail != null {
        tail.next := node;
      } else {
        head := node;
      }
      tail := node;
      nodes, repr := nodes + [node], repr + {node};
    }

    method Del(node: ListNode<T>, ghost k: nat)
      requires Valid() && k < |nodes| && nodes[k] == node
      modifies this, repr
      ensures Valid() && nodes == old(nodes)[..k] + old(nodes)[k + 1..] && repr == old(repr) - {node}
    {
      if node.prev != null {
        node.prev.next := node.next;
      } else {
        head := node.next;
      }
      if node.next != null {
        node.next.prev := node.prev;
      } else {
        tail := node.prev;
      }
      nodes, repr := nodes[..k] + nodes[k + 1..], repr - {node};
    }

    method First() returns (node: ListNode?<T>)
      requires Valid()
      ensures node == if nodes == [] then null else nodes[0]
    {
      return head;
    }
  }
}
