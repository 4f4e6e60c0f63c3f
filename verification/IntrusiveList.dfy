/** The intrusive doubly linked list of zsim/src/intrusive_list.h. */
module IntrusiveList {

  class Node<T> {
    var next: Node?<T>
    var prev: Node?<T>
    var owner: InList?<T>
    const elem: T  // what the node is part of

    constructor (elem: T)
      ensures this.elem == elem && next == null && prev == null && owner == null
    {
      this.elem := elem;
      next, prev, owner := null, null, null;
    }

    /** In no list at all. */
    predicate Free() reads this { next == null && prev == null && owner == null }
  }

  ghost predicate NoRepeats<T>(s: seq<Node<T>>) { forall i, j :: 0 <= i < j < |s| ==> s[i] != s[j] }

  class InList<T> {
    var head: Node?<T>
    var tail: Node?<T>
    var elems: nat
    ghost var nodes: seq<Node<T>>

    ghost predicate Valid()
      reads this, nodes
    {
      && elems == |nodes|
      && head == (if nodes == [] then null else nodes[0])
      && tail == (if nodes == [] then null else nodes[|nodes| - 1])
      && NoRepeats(nodes)
      && (forall i :: 0 <= i < |nodes| ==> Linked(nodes, i))
    }

    ghost predicate Linked(s: seq<Node<T>>, i: nat)
      requires i < |s|
      reads s
    {
      && s[i].owner == this
      && s[i].prev == (if i == 0 then null else s[i - 1])
      && s[i].next == (if i == |s| - 1 then null else s[i + 1])
    }

    constructor ()
      ensures Valid() && nodes == []
    {
      head, tail, elems, nodes := null, null, 0, [];
    }

    predicate Empty() reads this { head == null }

    function Front(): (n: Node?<T>)
      reads this, nodes
      requires Valid()
      ensures nodes == [] ==> n == null
      ensures nodes != [] ==> n == nodes[0]
    {
      head
    }

    function Back(): (n: Node?<T>)
      reads this, nodes
      requires Valid()
      ensures nodes == [] ==> n == null
      ensures nodes != [] ==> n == nodes[|nodes| - 1]
    {
      tail
    }

    method PushFront(e: Node<T>)
      requires Valid() && e.Free()
      modifies this, nodes`prev, nodes`next, e`next, e`prev, e`owner
      ensures Valid() && nodes == [e] + old(nodes)
    {
      assert e !in nodes by { NotMember(e); }
      if head == null {
        head, tail := e, e;
      } else {
        e.next := head;
        head.prev := e;
        head := e;
      }
      e.owner := this;
      elems := elems + 1;
      nodes := [e] + nodes;
      forall i | 0 <= i < |nodes| ensures Linked(nodes, i) {
        if i > 0 { assert old(Linked(nodes, i - 1)); }
      }
    }

    method PushBack(e: Node<T>)
      requires Valid() && e.Free()
      modifies this, nodes`prev, nodes`next, e`next, e`prev, e`owner
      ensures Valid() && nodes == old(nodes) + [e]
    {
      assert e !in nodes by { NotMember(e); }
      if head == null {
        head, tail := e, e;
        e.owner := this;
        elems := elems + 1;
        nodes := nodes + [e];
      } else {
        InsertAfter(tail, e);
        assert nodes == old(nodes) + [e];
      }
    }

    /** A node that is in no list is not in this one. */
    lemma NotMember(e: Node<T>)
      requires Valid() && e.owner == null
      ensures e !in nodes
    {
      forall i | 0 <= i < |nodes| ensures nodes[i] != e { assert Linked(nodes, i); }
    }

    lemma IndexOf(e: Node<T>) returns (i: nat)
      requires e in nodes
      ensures i < |nodes| && nodes[i] == e
    {
      i :| 0 <= i < |nodes| && nodes[i] == e;
    }

    /** Put e right after `at`, which is in the list; this is linkPrev plus the tail update. */
    method InsertAfter(at: Node<T>, e: Node<T>)
      requires Valid() && at in nodes && e.Free()
      modifies this, nodes`prev, nodes`next, e`next, e`prev, e`owner
      ensures Valid()
      ensures exists i :: 0 <= i < |old(nodes)| && old(nodes)[i] == at &&
                          nodes == old(nodes)[..i + 1] + [e] + old(nodes)[i + 1..]
    {
      NotMember(e);
      ghost var k := IndexOf(at);
      assert Linked(nodes, k);
      if at.next != null {
        assert Linked(nodes, k + 1);
        at.next.prev := e;
        e.next := at.next;
      }
      at.next := e;
      e.prev := at;
      e.owner := this;
      if at == tail { tail := e; }
      elems := elems + 1;
      nodes := nodes[..k + 1] + [e] + nodes[k + 1..];
      forall i | 0 <= i < |nodes| ensures Linked(nodes, i) {
        if i <= k { assert old(Linked(nodes, i)); }
        if i > k + 1 { assert old(Linked(nodes, i - 1)); }
      }
    }

    /** Take e out, wherever it is. */
    method Remove(e: Node<T>)
      requires Valid() && e in nodes
      modifies this, nodes`prev, nodes`next, e`owner
      ensures Valid() && e.Free()
      ensures exists i :: 0 <= i < |old(nodes)| && old(nodes)[i] == e && nodes == old(nodes)[..i] + old(nodes)[i + 1..]
    {
      ghost var k := IndexOf(e);
      assert Linked(nodes, k);
      if k > 0 { assert Linked(nodes, k - 1); }
      if k < |nodes| - 1 { assert Linked(nodes, k + 1); }
      if e == head { head := e.next; }
      if e == tail { tail := e.prev; }
      // unlink
      if e.next != null { e.next.prev := e.prev; }
      if e.prev != null { e.prev.next := e.next; }
      e.next, e.prev := null, null;
      assert e.owner == this;
      e.owner := null;
      elems := elems - 1;
      nodes := nodes[..k] + nodes[k + 1..];
      forall i | 0 <= i < |nodes| ensures Linked(nodes, i) {
        if i < k { assert old(Linked(nodes, i)); } else { assert old(Linked(nodes, i + 1)); }
      }
    }

    method PopFront()
      requires Valid()
      modifies this, nodes`prev, nodes`next, nodes`owner
      ensures Valid()
      ensures old(nodes) == [] ==> nodes == []
      ensures old(nodes) != [] ==> nodes == old(nodes)[1..] && old(nodes)[0].Free()
    {
      if head == null { return; }
      var e := head;
      assert Linked(nodes, 0);
      if |nodes| > 1 { assert Linked(nodes, 1); }
      head := e.next;
      // unlink
      if e.next != null { e.next.prev := e.prev; }
      e.next, e.prev, e.owner := null, null, null;
      if head == null { tail := null; }
      elems := elems - 1;
      nodes := nodes[1..];
      forall i | 0 <= i < |nodes| ensures Linked(nodes, i) { assert old(Linked(nodes, i + 1)); }
    }
  }
}
