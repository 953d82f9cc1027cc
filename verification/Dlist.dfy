/** The intrusive circular list that the allocator and the event loop rest on: include/dlist.h. */
module Dlist {
  class Node {
    var next: Node?
    var prev: Node?

    /** INIT_DLIST_HEAD. */
    constructor ()
      ensures next == this && prev == this
    {
      next, prev := this, this;
    }
  }

  /** The circle head, s[0], .., s[n - 1] as one sequence. */
  ghost function Circle(head: Node, s: seq<Node>): seq<Node>
  {
    [head] + s + [head]
  }

  /** The entries of the list at head are s, in this order, linked both ways. */
  ghost predicate Ring(head: Node, s: seq<Node>)
    reads head, s
  {
    && head !in s && (forall i, j | 0 <= i < j < |s| :: s[i] != s[j])
    && forall i | 0 <= i <= |s| ::
         var c := Circle(head, s); c[i].next == c[i + 1] && c[i + 1].prev == c[i]
  }

  lemma Neighbours(head: Node, s: seq<Node>, k: nat)
    requires Ring(head, s) && k <= |s|
    ensures var c := Circle(head, s); c[k].next == c[k + 1] && c[k + 1].prev == c[k]
  {
  }

  /** __dlist_add, at position k of the list. */
  method AddBetween(entry: Node, prev: Node, next: Node, ghost head: Node, ghost s: seq<Node>, ghost k: nat)
    requires Ring(head, s) && entry != head && entry !in s && k <= |s|
    requires prev == Circle(head, s)[k] && next == Circle(head, s)[k + 1]
    modifies entry, prev, next
    ensures Ring(head, s[..k] + [entry] + s[k..])
  {
    ghost var c, t := Circle(head, s), s[..k] + [entry] + s[k..];
    ghost var d := Circle(head, t);
    assert forall i | 0 <= i <= k :: d[i] == c[i];
    assert d[k + 1] == entry;
    assert forall i | k + 2 <= i < |d| :: d[i] == c[i - 1];
    assert forall i, j | 0 <= i < j <= |s| :: c[i] != c[j];
    next.prev := entry;
    entry.next := next;
    entry.prev := prev;
    prev.next := entry;
    forall i | 0 <= i <= |t|
      ensures d[i].next == d[i + 1] && d[i + 1].prev == d[i]
    {
      if i < k {
        assert c[i].next == c[i + 1] && c[i + 1].prev == c[i];
      } else if i > k + 1 {
        assert d[i] == c[i - 1] && d[i + 1] == c[i];
      }
    }
  }

  /** dlist_add. */
  method Add(entry: Node, head: Node, ghost s: seq<Node>)
    requires Ring(head, s) && entry != head && entry !in s
    modifies entry, head, s
    ensures Ring(head, [entry] + s)
  {
    assert Circle(head, s)[0].next == Circle(head, s)[1];
    AddBetween(entry, head, head.next, head, s, 0);
    assert s[..0] + [entry] + s[0..] == [entry] + s;
  }

  /** dlist_add_tail. */
  method AddTail(entry: Node, head: Node, ghost s: seq<Node>)
    requires Ring(head, s) && entry != head && entry !in s
    modifies entry, head, s
    ensures Ring(head, s + [entry])
  {
    assert Circle(head, s)[|s| + 1].prev == Circle(head, s)[|s|];
    AddBetween(entry, head.prev, head, head, s, |s|);
    assert s[..|s|] + [entry] + s[|s|..] == s + [entry];
  }

  /** dlist_del. */
  method Del(entry: Node, ghost head: Node, ghost s: seq<Node>, ghost k: nat)
    requires Ring(head, s) && k < |s| && s[k] == entry
    modifies head, s
    ensures Ring(head, s[..k] + s[k + 1..]) && entry.next == null == entry.prev
  {
    ghost var c, t := Circle(head, s), s[..k] + s[k + 1..];
    ghost var d := Circle(head, t);
    assert forall i | 0 <= i <= k :: d[i] == c[i];
    assert forall i | k < i < |d| :: d[i] == c[i + 1];
    assert c[k + 1] == entry && c[k].next == entry && c[k + 2].prev == entry;
    assert forall i, j | 0 <= i < j <= |s| :: c[i] != c[j];
    var prev, next := entry.prev, entry.next;
    next.prev := prev;
    prev.next := next;
    entry.next, entry.prev := null, null;
    forall i | 0 <= i <= |t|
      ensures d[i].next == d[i + 1] && d[i + 1].prev == d[i]
    {
      if i < k {
        assert c[i].next == c[i + 1] && c[i + 1].prev == c[i];
      } else if i > k {
        assert d[i] == c[i + 1] && d[i + 1] == c[i + 2];
      }
    }
  }

  /** dlist_empty. */
  method Empty(head: Node, ghost s: seq<Node>) returns (r: bool)
    requires Ring(head, s)
    ensures r <==> s == []
  {
    assert Circle(head, s)[0].next == Circle(head, s)[1];
    r := head.next == head;
  }

  /** The walk of _is_entry_in_used. */
  method Contains(head: Node, entry: Node, ghost s: seq<Node>) returns (r: bool)
    requires Ring(head, s)
    ensures r <==> entry in s
  {
    ghost var c, k := Circle(head, s), 0;
    assert c[0].next == c[1];
    var curr := head.next;
    while curr != head
      invariant 0 <= k <= |s| && curr == c[k + 1] && entry !in s[..k]
      decreases |s| - k
    {
      assert curr == s[k];
      if curr == entry { return true; }
      assert c[k + 1].next == c[k + 2];
      curr := curr.next;
      k := k + 1;
    }
    assert k == |s|;
    return false;
  }
}
