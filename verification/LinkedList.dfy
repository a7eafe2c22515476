/** modules/src/linked_list.c: a doubly linked list on the heap, proved to be a sequence. */
module LinkedLists {

  class Node<T> {
    var prev: Node?<T>
    var next: Node?<T>
    var item: T

    constructor (item: T)
      ensures this.item == item && prev == null && next == null
    {
      this.item, prev, next := item, null, null;
    }
  }

  function Without<A>(s: seq<A>, k: nat): (r: seq<A>)
    requires k < |s|
    ensures |r| == |s| - 1
    ensures forall i :: 0 <= i < k ==> r[i] == s[i]
    ensures forall i :: k <= i < |r| ==> r[i] == s[i + 1]
  {
    s[..k] + s[k + 1..]
  }

  class LinkedList<T> {
    var head: Node?<T>
    var tail: Node?<T>
    var count: nat
    /** The nodes in list order. */
    ghost var nodes: seq<Node<T>>

    /** `prev`, `next`, `head`, `tail` and `count` mirror `nodes` exactly. */
    ghost predicate Valid()
      reads this, nodes
    {
      && (forall i, j :: 0 <= i < j < |nodes| ==> nodes[i] != nodes[j])
      && count == |nodes|
      && head == (if nodes == [] then null else nodes[0])
      && tail == (if nodes == [] then null else nodes[|nodes| - 1])
      && (forall i {:trigger nodes[i].prev} :: 0 <= i < |nodes| ==>
            nodes[i].prev == if i == 0 then null else nodes[i - 1])
      && (forall i {:trigger nodes[i].next} :: 0 <= i < |nodes| ==>
            nodes[i].next == if i == |nodes| - 1 then null else nodes[i + 1])
    }

    /** The stored items in list order: the abstract value. */
    ghost function Items(): (s: seq<T>)
      reads this, nodes
      ensures |s| == |nodes|
    {
      seq(|nodes|, i requires 0 <= i < |nodes| reads this, nodes => nodes[i].item)
    }

    /** `linked_list_create` */
    constructor ()
      ensures Valid() && nodes == [] && Items() == []
    {
      head, tail, count, nodes := null, null, 0, [];
    }

    /** `linked_list_item_add` */
    method ItemAdd(item: T) returns (added: Node<T>)
      requires Valid()
      modifies this, nodes
      ensures Valid()
      ensures fresh(added) && nodes == old(nodes) + [added]
      ensures Items() == old(Items()) + [item]
    {
      added := new Node(item);
      if tail == null {
        head := added;
        tail := added;
      } else {
        added.prev := tail;
        tail.next := added;
        tail := added;
      }
      count := count + 1;
      nodes := nodes + [added];
    }

    /** `linked_list_item_remove`: `k` names the position of `node`. */
    method ItemRemove(node: Node<T>, ghost k: nat)
      requires Valid()
      requires k < |nodes| && nodes[k] == node
      modifies this, nodes
      ensures Valid()
      ensures nodes == Without(old(nodes), k)
      ensures Items() == Without(old(Items()), k)
    {
      if node.next == null && node.prev == null {
        head := null;
        tail := null;
      } else if node.prev == null {
        head := node.next;
        node.next.prev := null;
      } else if node.next == null {
        tail := node.prev;
        node.prev.next := null;
      } else {
        node.prev.next := node.next;
        node.next.prev := node.prev;
      }
      count := count - 1;
      nodes := Without(nodes, k);
    }

    /** `linked_list_items_dispose` */
    method ItemsDispose()
      requires Valid()
      modifies this, nodes
      ensures Valid() && nodes == [] && Items() == [] && count == 0 && head == null
    {
      while head != null
        invariant Valid()
        invariant |nodes| <= |old(nodes)| && nodes == old(nodes)[|old(nodes)| - |nodes|..]
        decreases |nodes|
      {
        ItemRemove(head, 0);
      }
    }
  }
}
