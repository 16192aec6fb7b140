/** `include/queue.h`: intrusive circular doubly linked lists, head node included. */
module Queue {

  /** The link field of an element or of a head; a new node is a list of its own (QUEUE_INIT). */
  class Node {
    var next: Node
    var prev: Node

    constructor ()
      ensures Ring([this])
    {
      next, prev := this, this;
    }
  }

  /** Following `next` from `s[0]` visits `s` in order and comes back; `prev` is its inverse. */
  ghost predicate Ring(s: seq<Node>)
    reads s
  {
    && s != [] && (forall i, j :: 0 <= i < j < |s| ==> s[i] != s[j])
    && (forall i :: 0 <= i < |s| - 1 ==> s[i].next == s[i + 1])
    && (forall i :: 0 < i < |s| ==> s[i].prev == s[i - 1])
    && s[|s| - 1].next == s[0] && s[0].prev == s[|s| - 1]
  }

  ghost predicate Apart(s: seq<Node>, t: seq<Node>) {
    forall i, j :: 0 <= i < |s| && 0 <= j < |t| ==> s[i] != t[j]
  }

  /** QUEUE_EMPTY. */
  method Empty(h: Node, ghost s: seq<Node>) returns (empty: bool)
    requires Ring(s) && s[0] == h
    ensures empty == (s == [h])
  {
    assert |s| > 1 ==> h.next == s[1];
    empty := h.next == h;
  }

  /** QUEUE_INIT on a node of any list. */
  method Init(q: Node)
    modifies q
    ensures Ring([q])
  {
    q.next := q;
    q.prev := q;
  }

  /** QUEUE_INSERT_HEAD. */
  method InsertHead(h: Node, q: Node, ghost s: seq<Node>)
    requires Ring(s) && s[0] == h && q !in s
    modifies h, q, h.next
    ensures Ring([h, q] + s[1..])
  {
    assert h.next == if |s| > 1 then s[1] else h;
    q.next := h.next;
    q.prev := h;
    q.next.prev := q;
    h.next := q;
  }

  /** QUEUE_INSERT_TAIL. */
  method InsertTail(h: Node, q: Node, ghost s: seq<Node>)
    requires Ring(s) && s[0] == h && q !in s
    modifies h, q, h.prev
    ensures Ring(s + [q])
  {
    q.next := h;
    q.prev := h.prev;
    q.prev.next := q;
    h.prev := q;
  }

  /** QUEUE_REMOVE of the element at `i`; the node removed still points into the list. */
  method Remove(q: Node, ghost s: seq<Node>, ghost i: nat)
    requires Ring(s) && 0 < i < |s| && s[i] == q
    modifies q.prev, q.next
    ensures Ring(s[..i] + s[i + 1..])
    ensures q.next == old(q.next) && q.prev == old(q.prev)
  {
    assert q.prev == s[i - 1] && q.next == if i + 1 < |s| then s[i + 1] else s[0];
    q.prev.next := q.next;
    q.next.prev := q.prev;
  }

  /** QUEUE_ADD: the elements of the list of `n` follow those of the list of `h`; `n` itself drops out. */
  method Add(h: Node, n: Node, ghost s: seq<Node>, ghost t: seq<Node>)
    requires Ring(s) && s[0] == h && Ring(t) && t[0] == n && Apart(s, t)
    modifies h, h.prev, n.next, n.prev
    ensures Ring(s + t[1..])
  {
    ghost var r, last := s + t[1..], |s| - 1;
    assert forall i :: 0 <= i < |s| ==> r[i] == s[i];
    assert forall i :: |s| <= i < |r| ==> r[i] == t[i - last];
    assert h.prev == s[last] && n.next == t[if |t| > 1 then 1 else 0] && n.prev == t[|t| - 1];
    h.prev.next := n.next;
    n.next.prev := h.prev;
    h.prev := n.prev;
    h.prev.next := h;
    assert forall i :: 0 < i < |s| ==> r[i].prev == r[i - 1];
    assert forall j :: 1 < j < |t| ==> t[j].prev == t[j - 1];
  }

  /** QUEUE_SPLIT: the elements from `q` on move to the list of `n`. */
  method Split(h: Node, q: Node, n: Node, ghost s: seq<Node>, ghost i: nat)
    requires Ring(s) && s[0] == h && 0 < i < |s| && s[i] == q && n !in s
    modifies h, q, n, h.prev, q.prev
    ensures Ring(s[..i]) && Ring([n] + s[i..])
  {
    n.prev := h.prev;
    n.prev.next := n;
    n.next := q;
    h.prev := q.prev;
    h.prev.next := h;
    q.prev := n;
  }

  /** QUEUE_MOVE: all elements move to the list of `n`. */
  method Move(h: Node, n: Node, ghost s: seq<Node>)
    requires Ring(s) && s[0] == h && n !in s
    modifies h, n, h.next, h.prev
    ensures Ring([h]) && Ring([n] + s[1..])
  {
    var empty := Empty(h, s);
    if empty {
      Init(n);
    } else {
      var q := h.next;
      assert q == s[1] && q.prev == h;
      Split(h, q, n, s, 1);
    }
  }
}
