/**
 kern/list.h: circular doubly linked lists.  The ring of nodes around a head is tied to the sequence of its
 members; the other modules work on such sequences directly (list_add puts a member in front, list_del takes
 one out), so what is proved here once is what stands behind them.
 */
module Lists {
  import opened Layout

  class Node {
    var next: Node?
    var prev: Node?

    constructor ()
      ensures next == null && prev == null
    {
      next, prev := null, null;
    }
  }

  /** Each node's next is the one after it, whose prev is that node. */
  predicate Linked(cycle: seq<Node>)
    reads set n | n in cycle
  {
    forall i :: 0 < i < |cycle| ==> cycle[i].prev == cycle[i - 1] && cycle[i - 1].next == cycle[i]
  }

  /** From the head through s back to the head. */
  function Cycle(head: Node, s: seq<Node>): (c: seq<Node>)
    ensures |c| == |s| + 2
  {
    [head] + s + [head]
  }

  predicate Ring(head: Node, s: seq<Node>)
    reads set n | n in Cycle(head, s)
  {
    head !in s && Distinct(s) && Linked(Cycle(head, s))
  }

  /** INIT_LIST_HEAD. */
  method InitListHead(list: Node)
    modifies list
    ensures Ring(list, [])
  {
    list.next := list;
    list.prev := list;
  }

  /** Positions on the cycle: the head at both ends, every member once. */
  lemma CycleAt(head: Node, s: seq<Node>)
    requires head !in s && Distinct(s)
    ensures var c := Cycle(head, s);
            && c[0] == head && c[|s| + 1] == head
            && (forall i :: 1 <= i <= |s| ==> c[i] == s[i - 1] && c[i] != head)
            && (forall i, j :: 1 <= i < j <= |s| ==> c[i] != c[j])
  {
  }

  /** list_empty. */
  predicate IsEmpty(head: Node)
    reads head
  {
    head.next == head
  }

  lemma EmptyRing(head: Node, s: seq<Node>)
    requires Ring(head, s)
    ensures IsEmpty(head) <==> s == []
  {
    CycleAt(head, s);
    var c := Cycle(head, s);
    assert c[1].prev == c[0];
  }

  /** list_add: the new node becomes the first member. */
  method ListAdd(node: Node, head: Node, ghost s: seq<Node>)
    requires Ring(head, s) && node != head && node !in s
    modifies set n | n in Cycle(head, [node] + s)
    ensures Ring(head, [node] + s)
  {
    ghost var c, d := Cycle(head, s), Cycle(head, [node] + s);
    CycleAt(head, s);
    assert d == [head, node] + c[1..];
    assert c[1].prev == c[0] && c[0].next == c[1];
    var first := head.next;
    node.next := head.next;
    node.prev := head;
    first.prev := node;
    head.next := node;
  }

  function Without(s: seq<Node>, k: nat): (r: seq<Node>)
    requires k < |s|
    ensures |r| == |s| - 1 && forall i :: 0 <= i < |r| ==> r[i] == s[if i < k then i else i + 1]
  {
    s[..k] + s[k + 1..]
  }

  lemma WithoutDistinct(head: Node, s: seq<Node>, k: nat)
    requires k < |s| && head !in s && Distinct(s)
    ensures head !in Without(s, k) && Distinct(Without(s, k)) && s[k] !in Without(s, k)
    ensures Cycle(head, Without(s, k)) == Cycle(head, s)[..k + 1] + Cycle(head, s)[k + 2..]
  {
  }

  /** list_del: the member at position k leaves the list, and its own links are cleared. */
  method ListDel(p: Node, ghost head: Node, ghost s: seq<Node>, ghost k: nat)
    requires Ring(head, s) && k < |s| && s[k] == p
    modifies set n | n in Cycle(head, s)
    ensures Ring(head, Without(s, k)) && p.next == null && p.prev == null
  {
    ghost var c, d := Cycle(head, s), Cycle(head, Without(s, k));
    CycleAt(head, s);
    WithoutDistinct(head, s, k);
    assert c[k + 1].prev == c[k] && c[k + 2].prev == c[k + 1];
    p.next.prev := p.prev;
    p.prev.next := p.next;
    p.next := null;
    p.prev := null;
    forall i | 0 < i < |d| ensures d[i].prev == d[i - 1] && d[i - 1].next == d[i] {
      if i <= k {
        assert old(c[i].prev) == c[i - 1];
      } else if i > k + 1 {
        assert old(c[i + 1].prev) == c[i];
      }
    }
  }

  /** list_for_each_safe with list_del of every member: the list ends up empty. */
  method Drain(head: Node, ghost s: seq<Node>)
    requires Ring(head, s)
    modifies set n | n in Cycle(head, s)
    ensures Ring(head, [])
  {
    ghost var rest, c := s, Cycle(head, s);
    assert c[1].prev == c[0];
    var p := head.next;
    while p != head
      invariant Ring(head, rest) && p == head.next
      invariant forall n :: n in rest ==> n in s
      decreases |rest|
    {
      c := Cycle(head, rest);
      assert c[1].prev == c[0] && c[2].prev == c[1];
      var n := p.next;
      ListDel(p, head, rest, 0);
      rest := Without(rest, 0);
      c := Cycle(head, rest);
      assert c[1].prev == c[0];
      p := n;
    }
    c := Cycle(head, rest);
    assert c[1].prev == c[0];
  }
}
