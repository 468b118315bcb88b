/** The circular doubly linked list of include/list.h. */
module Dlist {

  /** dlist_t embedded in a container, which `owner` stands for; a list head has none. */
  class DNode<T> {
    var next: DNode<T>
    var prev: DNode<T>
    const owner: T

    /** dlist_init */
    constructor (owner: T)
      ensures next == this && prev == this && this.owner == owner
      ensures Ring([this])
    {
      this.owner := owner;
      next, prev := this, this;
    }
  }

  ghost function Succ<T>(c: seq<DNode<T>>, i: nat): DNode<T>
    requires i < |c|
  {
    if i + 1 < |c| then c[i + 1] else c[0]
  }

  ghost predicate Distinct<X>(c: seq<X>) {
    forall i, j :: 0 <= i < j < |c| ==> c[i] != c[j]
  }

  /** The nodes of `c`, the first of which is the list head, link up into a circle in both directions. */
  ghost predicate Ring<T>(c: seq<DNode<T>>)
    reads c
  {
    c != [] && Distinct(c) &&
    forall i :: 0 <= i < |c| ==> c[i].next == Succ(c, i) && Succ(c, i).prev == c[i]
  }

  /** dlist_add_orig */
  method AddOrig<T>(node: DNode<T>, prev: DNode<T>, next: DNode<T>)
    requires node != prev && node != next
    modifies node, prev`next, next`prev
    ensures next.prev == node && node.next == next && node.prev == prev && prev.next == node
    ensures next != prev ==> next.next == old(next.next) && prev.prev == old(prev.prev)
  {
    next.prev := node;
    node.next := next;
    node.prev := prev;
    prev.next := node;
  }

  /** dlist_add_tail */
  method AddTail<T>(head: DNode<T>, node: DNode<T>, ghost c: seq<DNode<T>>)
    requires Ring(c) && c[0] == head && node !in c
    modifies node, c
    ensures Ring(c + [node])
  {
    LastIsPrev(c);
    AddOrig(node, head.prev, head);
  }

  lemma {:induction false} LastIsPrev<T>(c: seq<DNode<T>>)
    requires Ring(c)
    ensures c[0].prev == c[|c| - 1] && c[|c| - 1].next == c[0]
  {
    assert Succ(c, |c| - 1) == c[0];
  }

  /** dlist_del: the node keeps its own links. */
  method Del<T>(node: DNode<T>, ghost c: seq<DNode<T>>, ghost k: nat)
    requires Ring(c) && 0 < k < |c| && c[k] == node
    modifies c
    ensures Ring(c[..k] + c[k + 1..])
  {
    assert Succ(c, k - 1) == node;
    var prev, next := node.prev, node.next;
    next.prev := prev;
    prev.next := next;
    ghost var d := c[..k] + c[k + 1..];
    forall i | 0 <= i < |d|
      ensures d[i].next == Succ(d, i) && Succ(d, i).prev == d[i]
    {
      var j := if i < k then i else i + 1;
      assert d[i] == c[j];
    }
  }

  /** dlist_empty */
  method Empty<T>(head: DNode<T>, ghost c: seq<DNode<T>>) returns (r: bool)
    requires Ring(c) && c[0] == head
    ensures r <==> |c| == 1
  {
    LastIsPrev(c);
    assert head.next == Succ(c, 0);
    r := head.prev == head.next && head == head.prev;
  }
}
