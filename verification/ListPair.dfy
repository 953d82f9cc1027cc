/** The two lists of a pool on pointers, as comlib/mem_helper.c and comlib/sloop.c keep them: every
    entry is on the ring of free entries or on the ring of used ones.  The lists of entry
    numbers are those of Allocator and Sloop. */
module ListPair {
  import opened Dlist
  import opened Lists

  ghost predicate Numbers(l: seq<nat>, n: nat)
  {
    forall i | 0 <= i < |l| :: l[i] < n
  }

  ghost function NodesOf(nodes: seq<Node>, l: seq<nat>): seq<Node>
    requires Numbers(l, |nodes|)
  {
    seq(|l|, i requires 0 <= i < |l| => nodes[l[i]])
  }

  ghost predicate Distinct(nodes: seq<Node>, free: Node, used: Node)
  {
    free != used && free !in nodes && used !in nodes && forall i, j | 0 <= i < j < |nodes| :: nodes[i] != nodes[j]
  }

  /** A node is on a ring exactly if its number is on the list. */
  lemma OnRing(nodes: seq<Node>, free: Node, used: Node, l: seq<nat>)
    requires Numbers(l, |nodes|) && Distinct(nodes, free, used)
    ensures forall x | 0 <= x < |nodes| :: nodes[x] in NodesOf(nodes, l) <==> x in l
    ensures forall e | e in NodesOf(nodes, l) :: e in nodes
  {
    forall x: nat | x in l
      ensures x < |nodes| && nodes[x] in NodesOf(nodes, l)
    {
      var i :| 0 <= i < |l| && l[i] == x;
      assert NodesOf(nodes, l)[i] == nodes[x];
    }
  }

  /** Taking entry x off list l takes one node off its ring. */
  lemma WithoutNode(nodes: seq<Node>, l: seq<nat>, x: nat, k: nat)
    requires Numbers(l, |nodes|) && k < |l| && l[k] == x && Remove(l, x) == l[..k] + l[k + 1..]
    ensures Numbers(Remove(l, x), |nodes|)
    ensures var s := NodesOf(nodes, l); NodesOf(nodes, Remove(l, x)) == s[..k] + s[k + 1..]
  {
  }

  lemma WithNode(nodes: seq<Node>, l: seq<nat>, x: nat, k: nat)
    requires Numbers(l, |nodes|) && k <= |l| && x < |nodes|
    ensures var q := l[..k] + [x] + l[k..]; var s := NodesOf(nodes, l);
            Numbers(q, |nodes|) && NodesOf(nodes, q) == s[..k] + [nodes[x]] + s[k..] && forall y | y in q :: y == x || y in l
  {
    var q := l[..k] + [x] + l[k..];
    assert forall i | 0 <= i < |q| :: q[i] == if i < k then l[i] else if i == k then x else l[i - 1];
  }

  class TwoLists {
    const nodes: seq<Node>
    const free: Node
    const used: Node
    ghost var freeList: seq<nat>
    ghost var usedList: seq<nat>

    ghost predicate Valid()
      reads this, nodes, free, used
    {
      && Distinct(nodes, free, used) && Numbers(freeList, |nodes|) && Numbers(usedList, |nodes|)
      && (forall x | x in freeList :: x !in usedList)
      && Ring(free, NodesOf(nodes, freeList)) && Ring(used, NodesOf(nodes, usedList))
    }

    /** Two empty lists. */
    constructor (nodes: seq<Node>)
      requires forall i, j | 0 <= i < j < |nodes| :: nodes[i] != nodes[j]
      ensures Valid() && fresh(free) && fresh(used) && this.nodes == nodes && freeList == [] == usedList
    {
      var f := new Node();
      var u := new Node();
      this.nodes, free, used := nodes, f, u;
      freeList, usedList := [], [];
    }

    /** dlist_del of an entry, from the list that it is on. */
    method Unlink(entry: Node, ghost x: nat)
      requires Valid() && x < |nodes| && nodes[x] == entry && (x in freeList || x in usedList)
      modifies this`freeList, this`usedList, nodes, free, used
      ensures Valid() && freeList == Remove(old(freeList), x) && usedList == Remove(old(usedList), x)
      ensures x !in freeList && x !in usedList
    {
      hide Remove;
      OnRing(nodes, free, used, freeList);
      OnRing(nodes, free, used, usedList);
      ghost var head, l := if x in freeList then free else used, if x in freeList then freeList else usedList;
      RemoveAbsent(if x in freeList then usedList else freeList, x);
      ghost var k := Place(l, x);
      WithoutNode(nodes, l, x, k);
      Del(entry, head, NodesOf(nodes, l), k);
      freeList, usedList := Remove(freeList, x), Remove(usedList, x);
      OnRing(nodes, free, used, freeList);
      OnRing(nodes, free, used, usedList);
    }

    /** dlist_add of an entry to the free list. */
    method Free(entry: Node, ghost x: nat)
      requires Valid() && x < |nodes| && nodes[x] == entry && x !in freeList && x !in usedList
      modifies this`freeList, nodes, free
      ensures Valid() && freeList == [x] + old(freeList)
    {
      OnRing(nodes, free, used, freeList);
      OnRing(nodes, free, used, usedList);
      ghost var s := NodesOf(nodes, freeList);
      Add(entry, free, s);
      freeList := [x] + freeList;
      assert NodesOf(nodes, freeList) == [entry] + s;
    }

    /** dlist_add_tail of an entry in front of the k-th used entry, or at the end of the list. */
    method Use(entry: Node, at: Node, ghost x: nat, ghost k: nat)
      requires Valid() && x < |nodes| && nodes[x] == entry && x !in freeList && x !in usedList
      requires k <= |usedList| && at == Circle(used, NodesOf(nodes, usedList))[k + 1]
      modifies this`usedList, nodes, used
      ensures Valid() && usedList == old(usedList)[..k] + [x] + old(usedList)[k..]
    {
      OnRing(nodes, free, used, freeList);
      OnRing(nodes, free, used, usedList);
      ghost var s := NodesOf(nodes, usedList);
      Neighbours(used, s, k);
      WithNode(nodes, usedList, x, k);
      hide Ring, Numbers, NodesOf, Distinct, Circle;
      AddBetween(entry, at.prev, at, used, s, k);
      usedList := usedList[..k] + [x] + usedList[k..];
    }

    /** The end of memfree and of sloop_cancel_timeout: whatever list the entry is on, it
        becomes the first free one. */
    method Release(entry: Node, ghost x: nat)
      requires Valid() && x < |nodes| && nodes[x] == entry && (x in freeList || x in usedList)
      modifies this`freeList, this`usedList, nodes, free, used
      ensures Valid() && freeList == [x] + Remove(old(freeList), x) && usedList == Remove(old(usedList), x)
    {
      hide Valid, Remove;
      Unlink(entry, x);
      Free(entry, x);
    }

    /** The start of memalloc and of get_timeout: the first free entry, or nothing. */
    method Acquire() returns (entry: Node?)
      requires Valid()
      modifies this`freeList, this`usedList, nodes, free, used
      ensures Valid() && usedList == old(usedList)
      ensures if old(freeList) == [] then entry == null && freeList == [] else
        old(freeList)[0] < |nodes| && entry == nodes[old(freeList)[0]] && freeList == old(freeList)[1..] && old(freeList)[0] !in freeList + usedList
    {
      ghost var s := NodesOf(nodes, freeList);
      var empty := Empty(free, s);
      if empty { return null; }
      assert Circle(free, s)[0].next == Circle(free, s)[1];
      entry := free.next;
      ghost var x := freeList[0];
      RemoveAbsent(usedList, x);
      Unlink(entry, x);
    }
  }
}
