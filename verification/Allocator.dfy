/** The pool allocator: comlib/mem_helper.c.  Addresses are natural numbers, a block is known by
    the address of its header, and a list of blocks is the sequence of its headers. */
module Allocator {
  import opened Arith
  import opened Lists

  const POOLS: nat := 22
  /** sizeof(memblk_hdr_t) on the 32-bit target, without tracking. */
  const HDR: nat := 12
  const INCREASE: seq<nat> := [0, 0, 8, 8, 8, 8, 8, 8, 8, 8, 8, 8, 4, 2, 1, 1, 1, 1, 1, 1, 1, 1]

  function Span(s: nat): nat
  {
    HDR + Pow2(s)
  }

  // ---------- lists of blocks ----------

  /** The two lists hold every block of all, and each block once. */
  ghost predicate Partition(free: seq<nat>, used: seq<nat>, all: set<nat>)
  {
    && NoDup(free) && NoDup(used) && (forall h | h in free :: h !in used)
    && forall h :: h in free || h in used <==> h in all
  }

  lemma TakeFirst(free: seq<nat>, used: seq<nat>, all: set<nat>)
    requires Partition(free, used, all) && free != []
    ensures Partition(free[1..], [free[0]] + used, all) && free[0] !in used && free[0] in all
  {
    var f, u := free[1..], [free[0]] + used;
    assert forall i | 0 <= i < |f| :: f[i] == free[i + 1];
    assert forall i | 0 < i < |u| :: u[i] == used[i - 1];
    assert free[0] in free && free[0] !in f;
    forall h ensures h in f || h in u <==> h in all {
      assert h in free <==> h == free[0] || h in f;
      assert h in u <==> h == free[0] || h in used;
    }
  }

  lemma GiveBack(free: seq<nat>, used: seq<nat>, all: set<nat>, h: nat)
    requires Partition(free, used, all) && h in used
    ensures Partition([h] + free, Remove(used, h), all)
  {
    RemoveNoDup(used, h);
    var f, u := [h] + free, Remove(used, h);
    assert forall i | 0 < i < |f| :: f[i] == free[i - 1];
    forall x ensures x in f || x in u <==> x in all {
      assert x in f <==> x == h || x in free;
    }
  }

  lemma AddTail(free: seq<nat>, used: seq<nat>, all: set<nat>, h: nat)
    requires Partition(free, used, all) && h !in all
    ensures Partition(free + [h], used, all + {h})
  {
    var f := free + [h];
    assert h !in free && h !in used;
    forall x ensures x in f || x in used <==> x in all + {h} {
      assert x in f <==> x == h || x in free;
    }
  }

  // ---------- regions ----------

  datatype Region = Region(at: nat, len: nat)

  predicate AllApart(supers: seq<Region>, a: nat, n: nat)
  {
    forall r | r in supers :: Apart(a, n, r.at, r.len)
  }

  /** Different blocks do not overlap, headers included. */
  ghost predicate Disjoint(size: map<nat, nat>)
  {
    forall h, k | h in size && k in size && h != k :: Apart(h, Span(size[h]), k, Span(size[k]))
  }

  ghost predicate Within(supers: seq<Region>, h: nat, n: nat)
  {
    exists r | r in supers :: r.at <= h && h + n <= r.at + r.len
  }

  ghost predicate Carved(supers: seq<Region>, size: map<nat, nat>)
  {
    forall h | h in size :: Within(supers, h, Span(size[h]))
  }

  /** Blocks carved from a new super block do not overlap older ones. */
  lemma NewBlockApart(supers: seq<Region>, size: map<nat, nat>, a: nat, n: nat, h: nat, k: nat)
    requires Carved(supers, size) && AllApart(supers, a, n) && a <= h && h + k <= a + n
    ensures forall x | x in size :: Apart(h, k, x, Span(size[x]))
  {
    forall x | x in size ensures Apart(h, k, x, Span(size[x])) {
      assert Within(supers, x, Span(size[x]));
    }
  }

  function Blocks(size: map<nat, nat>, s: nat): set<nat>
  {
    set h | h in size && size[h] == s
  }

  // ---------- the allocator ----------

  /** What belongs to one size class: mpool_free_list, mpool_used_list, mpool_free, mpool_used,
      mpool_max_used and mpool_count. */
  datatype Pool = Pool(free: seq<nat>, used: seq<nat>, nfree: nat, nused: nat, nmax: nat, count: nat)

  /** Lists and counters agree. */
  ghost predicate PoolOk(p: Pool, all: set<nat>)
  {
    Partition(p.free, p.used, all) && p.nfree == |p.free| && p.nused == |p.used| && p.nused <= p.nmax
  }

  ghost predicate PoolsOk(pools: seq<Pool>, size: map<nat, nat>)
  {
    |pools| == POOLS && forall s | 0 <= s < POOLS :: PoolOk(pools[s], Blocks(size, s))
  }

  /** mpool_free + mpool_used = mpool_count * mpool_increase. */
  ghost predicate Conserved(pools: seq<Pool>)
  {
    |pools| == POOLS && forall s | 0 <= s < POOLS :: pools[s].nfree + pools[s].nused == pools[s].count * INCREASE[s]
  }

  ghost predicate BlocksOk(supers: seq<Region>, size: map<nat, nat>)
  {
    Disjoint(size) && Carved(supers, size) && forall h | h in size :: size[h] < POOLS
  }

  /** The headers of the blocks in use. */
  ghost function LiveIn(pools: seq<Pool>, size: map<nat, nat>): set<nat>
    requires |pools| == POOLS
  {
    set h | h in size && size[h] < POOLS && h in pools[size[h]].used
  }

  lemma PoolChanged(pools: seq<Pool>, size: map<nat, nat>, s: nat, p: Pool)
    requires PoolsOk(pools, size) && s < POOLS && PoolOk(p, Blocks(size, s))
    ensures PoolsOk(pools[s := p], size)
  {
  }

  lemma BlockAdded(pools: seq<Pool>, supers: seq<Region>, size: map<nat, nat>, s: nat, h: nat)
    requires PoolsOk(pools, size) && BlocksOk(supers, size) && s < POOLS && h !in size && Within(supers, h, Span(s))
    requires forall x | x in size :: Apart(h, Span(s), x, Span(size[x]))
    ensures var p := pools[s]; var pools' := pools[s := p.(free := p.free + [h], nfree := p.nfree + 1)];
            PoolsOk(pools', size[h := s]) && LiveIn(pools', size[h := s]) == LiveIn(pools, size)
    ensures BlocksOk(supers, size[h := s])
  {
    var p := pools[s];
    var size' := size[h := s];
    AddTail(p.free, p.used, Blocks(size, s), h);
    assert Blocks(size', s) == Blocks(size, s) + {h};
    forall t | 0 <= t < POOLS && t != s
      ensures Blocks(size', t) == Blocks(size, t)
    {
    }
    assert h !in Blocks(size, s);
  }

  /** The size of a super block for class s. */
  function SuperSize(s: nat): nat
    requires s < POOLS
  {
    HDR + Span(s) * INCREASE[s]
  }

  /** The answer ptr of the system's malloc is memory apart from every super block it gave before. */
  predicate Granted(supers: seq<Region>, ptr: Option<nat>, s: nat)
    requires s < POOLS
  {
    ptr.Some? && AllApart(supers, ptr.value, SuperSize(s))
  }

  /** Class s has a free block or gets a new super block. */
  predicate Served(pools: seq<Pool>, supers: seq<Region>, answers: nat -> Option<nat>, s: nat)
    requires |pools| == POOLS && s < POOLS
  {
    pools[s].free != [] || Granted(supers, answers(s), s)
  }

  /** No class that is large enough for n bytes is served. */
  ghost predicate Refused(pools: seq<Pool>, supers: seq<Region>, answers: nat -> Option<nat>, n: nat)
    requires |pools| == POOLS
  {
    n == 0 || forall s | 3 <= s < POOLS && n <= Pow2(s) :: !Served(pools, supers, answers, s)
  }

  class MemHelper {
    var pools: seq<Pool>
    /** mpool_free_list[0], and the size classes noted in the headers of the blocks. */
    var supers: seq<Region>
    var size: map<nat, nat>
    var mem: int -> int

    ghost predicate Core()
      reads this
    {
      PoolsOk(pools, size) && BlocksOk(supers, size)
    }

    ghost predicate Valid()
      reads this
    {
      Core() && Conserved(pools)
    }

    ghost function Live(): set<nat>
      requires Core()
      reads this
    {
      LiveIn(pools, size)
    }

    /** mh_init_all. */
    constructor ()
      ensures Valid() && Live() == {} && size == map[]
    {
      pools := seq(POOLS, _ => Pool([], [], 0, 0, 0, 0));
      supers, size := [], map[];
      mem := _ => 0;
    }

    /** Put the i-th block of a new super block on the free list of its class. */
    method AddBlock(s: nat, h: nat, ghost pools0: seq<Pool>, ghost i: nat)
      requires Core() && s < POOLS && h !in size && Within(supers, h, Span(s)) && Growing(pools0, pools, s, i)
      requires forall x | x in size :: Apart(h, Span(s), x, Span(size[x]))
      modifies this`pools, this`size
      ensures Core() && Live() == old(Live()) && size == old(size)[h := s] && Growing(pools0, pools, s, i + 1)
      ensures |old(pools)| == |pools| == POOLS && pools[s].free == old(pools)[s].free + [h]
    {
      hide PoolsOk, BlocksOk, LiveIn, Pow2;
      BlockAdded(pools, supers, size, s, h);
      size := size[h := s];
      pools := pools[s := pools[s].(free := pools[s].free + [h], nfree := pools[s].nfree + 1)];
    }

    /** alloc_memblk, with the answer of the system's malloc: carve a new super block into free blocks. */
    method AllocMemblk(s: nat, ptr: Option<nat>)
      requires Valid() && 1 < s < POOLS
      modifies this`pools, this`supers, this`size
      ensures Valid() && Live() == old(Live()) && Kept(old(size), size)
      ensures !Granted(old(supers), ptr, s) ==> pools == old(pools) && supers == old(supers) && size == old(size)
      ensures Granted(old(supers), ptr, s) ==>
        && supers == old(supers) + [Region(ptr.value, SuperSize(s))] && 0 < INCREASE[s]
        && |pools[s].free| == |old(pools)[s].free| + INCREASE[s] && pools[s].free[|old(pools)[s].free|] == ptr.value + HDR
        && pools[s].used == old(pools)[s].used
    {
      hide PoolsOk, BlocksOk, LiveIn, Pow2, Growing;
      var inc, span := INCREASE[s], Span(s);
      IncreasePositive(s);
      var need := HDR + span * inc;
      if !Granted(supers, ptr, s) { return; }
      ghost var pools0 := pools;
      SuperAdded(pools, supers, size, ptr.value, need, s);
      supers := supers + [Region(ptr.value, need)];
      GrowingStart(pools, s);
      pools := pools[s := pools[s].(count := pools[s].count + 1)];
      Carve(s, ptr.value, pools0);
      Grown(pools0, pools, s);
    }

    /** Its loop: the blocks of the super block at ptr go to the end of the free list. */
    method Carve(s: nat, ptr: nat, ghost pools0: seq<Pool>)
      requires Core() && 1 < s < POOLS && Region(ptr, SuperSize(s)) in supers && Growing(pools0, pools, s, 0)
      requires forall h | h in size :: Apart(ptr, SuperSize(s), h, Span(size[h]))
      modifies this`pools, this`size
      ensures Core() && Live() == old(Live()) && Kept(old(size), size)
      ensures Growing(pools0, pools, s, INCREASE[s]) && FirstAt(pools0, pools, s, INCREASE[s], ptr + HDR)
    {
      hide PoolsOk, BlocksOk, LiveIn, Pow2, Growing, FirstAt;
      var inc, span := INCREASE[s], Span(s);
      ghost var left: nat := span * inc;
      FirstNone(pools0, pools, s, ptr + HDR);
      var at := ptr + HDR;
      var i := 0;
      while i < inc
        invariant 0 <= i <= inc && at + left == ptr + SuperSize(s) && ptr <= at && left == span * (inc - i)
        invariant i == 0 ==> at == ptr + HDR
        invariant Core() && Live() == old(Live()) && Kept(old(size), size)
        invariant forall h | h in size :: Apart(at, left, h, Span(size[h]))
        invariant Growing(pools0, pools, s, i) && FirstAt(pools0, pools, s, i, ptr + HDR)
      {
        NextBlock(span, inc - i);
        ghost var before := pools;
        AddBlock(s, at, pools0, i);
        FirstMore(pools0, before, pools, s, i, at, ptr + HDR);
        at, left := at + span, left - span;
        i := i + 1;
      }
    }

    /** memalloc, with the answer of the system's malloc: the first free block of class s moves to the
        front of the used list.  There is none exactly if the list was empty and the system refused. */
    method Memalloc(s: nat, ptr: Option<nat>) returns (h: Option<nat>)
      requires Valid() && 1 < s < POOLS
      modifies this`pools, this`supers, this`size
      ensures Valid() && Kept(old(size), size)
      ensures h.None? <==> old(pools)[s].free == [] && !Granted(old(supers), ptr, s)
      ensures h.None? ==> pools == old(pools) && supers == old(supers) && size == old(size) && Live() == old(Live())
      ensures h.Some? ==> h.value in size && size[h.value] == s
      ensures h.Some? ==> h.value !in old(Live()) && Live() == old(Live()) + {h.value}
      ensures old(pools)[s].free != [] ==>
        h == Some(old(pools)[s].free[0]) && old(pools)[s].nfree > 0 && pools == old(pools)[s := TakenPool(old(pools)[s])]
      ensures old(pools)[s].free == [] && h.Some? ==> h.value == ptr.value + HDR
      ensures h.Some? ==> pools[s].used == [h.value] + old(pools)[s].used
    {
      hide PoolsOk, BlocksOk, LiveIn, AllApart;
      PoolParts(pools, size, s);
      if pools[s].free == [] { AllocMemblk(s, ptr); }
      PoolParts(pools, size, s);
      if pools[s].free == [] { return None; }
      var p := pools[s];
      var entry := p.free[0];
      Taken(pools, size, s);
      pools := pools[s := TakenPool(p)];
      h := Some(entry);
    }

    /** memfree; a block that is not on the used list stays where it is. */
    method Memfree(h: nat)
      requires Valid() && h in size
      modifies this`pools
      ensures Valid()
      ensures if h in old(Live()) then Live() == old(Live()) - {h} else pools == old(pools)
      ensures h in old(Live()) ==> size[h] < POOLS && old(pools)[size[h]].nused > 0
      ensures h in old(Live()) ==> pools == old(pools)[size[h] := GivenPool(old(pools)[size[h]], h)]
      ensures h in old(Live()) ==> pools[size[h]].free == [h] + old(pools)[size[h]].free && pools[size[h]].used == Remove(old(pools)[size[h]].used, h)
    {
      hide PoolsOk, BlocksOk, LiveIn;
      var s := size[h];
      SizeInRange(supers, size, h);
      PoolParts(pools, size, s);
      var p := pools[s];
      IsLive(pools, size, h);
      if h in p.used {
        Given(pools, size, s, h);
        pools := pools[s := GivenPool(p, h)];
      }
    }

    /** mh_malloc, with the answers of the system's malloc for each class: the data of a block that was
        not in use, of the first class that is large enough and is served, or nothing exactly if none is. */
    method Malloc(n: nat, answers: nat -> Option<nat>) returns (ptr: Option<nat>)
      requires Valid()
      modifies this`pools, this`supers, this`size
      ensures Valid() && Kept(old(size), size)
      ensures ptr.None? <==> Refused(old(pools), old(supers), answers, n)
      ensures ptr.None? ==> Live() == old(Live())
      ensures ptr.Some? ==> Fresh(ptr.value, n, size, old(Live()), Live())
      ensures ptr.Some? ==> FirstServed(old(pools), old(supers), answers, n, size[ptr.value - HDR])
      ensures ptr.Some? && old(pools)[size[ptr.value - HDR]].free != [] ==> ptr.value == old(pools)[size[ptr.value - HDR]].free[0] + HDR
    {
      hide PoolsOk, BlocksOk, LiveIn, Granted, Pow2;
      var i := 3;
      while i < POOLS && n > 0
        invariant 3 <= i <= POOLS && Valid() && Live() == old(Live())
        invariant pools == old(pools) && supers == old(supers) && size == old(size)
        invariant forall s | 3 <= s < i && n <= Pow2(s) :: !Served(pools, supers, answers, s)
      {
        if n <= Pow2(i) {
          var h := Memalloc(i, answers(i));
          if h.Some? { return Some(h.value + HDR); }
        }
        i := i + 1;
      }
      return None;
    }

    /** mh_free. */
    method Free(ptr: Option<nat>)
      requires Valid()
      modifies this`pools
      ensures Valid()
      ensures if Owns(ptr, old(Live())) then Live() == old(Live()) - {ptr.value - HDR} else pools == old(pools)
    {
      hide PoolsOk, BlocksOk, LiveIn;
      if ptr.None? || ptr.value < HDR || ptr.value - HDR !in size {
        if ptr.Some? && ptr.value >= HDR { LiveIsKnown(pools, size, ptr.value - HDR); }
        return;
      }
      Memfree(ptr.value - HDR);
    }

    /** mh_realloc.  A block that has to grow is copied whole and then freed, also when no larger
        block could be had; in that case the contents are lost. */
    method Realloc(ptr: Option<nat>, n: nat, answers: nat -> Option<nat>) returns (r: Option<nat>)
      requires Valid()
      modifies this
      ensures Valid() && Kept(old(size), size)
      ensures ptr.None? || (Known(ptr, old(size)) && n > Pow2(old(size)[ptr.value - HDR])) ==>
        (r.None? <==> Refused(old(pools), old(supers), answers, n))
      ensures ptr.None? && r.None? ==> Live() == old(Live())
      ensures ptr.None? && r.Some? ==> Fresh(r.value, n, size, old(Live()), Live()) && mem == old(mem)
      ensures ptr.Some? && !Known(ptr, old(size)) ==> r.None? && pools == old(pools) && mem == old(mem)
      ensures Known(ptr, old(size)) && n <= Pow2(old(size)[ptr.value - HDR]) ==> r == ptr && pools == old(pools) && mem == old(mem)
      ensures Known(ptr, old(size)) && n > Pow2(old(size)[ptr.value - HDR]) ==>
        Moved(ptr.value, r, n, size, old(Live()), Live(), old(mem), mem)
    {
      hide PoolsOk, BlocksOk, LiveIn, Copied, Pow2, Refused, FirstServed;
      if ptr.None? {
        if n == 0 {
          ZeroRefused(pools, supers, answers);
          return None;
        }
        r := Malloc(n, answers);
        return;
      }
      if ptr.value < HDR || ptr.value - HDR !in size { return None; }
      var mySize := Pow2(size[ptr.value - HDR]);
      if mySize >= n { return ptr; }
      r := Malloc(n, answers);
      if r.Some? {
        Copy(r.value, ptr.value, mySize);
      }
      Free(ptr);
    }

    /** memcpy. */
    method Copy(to: nat, from: nat, n: nat)
      modifies this`mem
      ensures Copied(to, from, n, old(mem), mem)
    {
      CopyIsCopied(mem, to, from, n);
      mem := CopyOf(mem, to, from, n);
    }
  }

  /** What address a holds after n bytes have been copied. */
  function CopiedByte(mem0: int -> int, to: int, from: int, n: int, a: int): int
  {
    if to <= a < to + n then mem0(from + (a - to)) else mem0(a)
  }

  function CopyOf(mem0: int -> int, to: int, from: int, n: int): int -> int
  {
    a => CopiedByte(mem0, to, from, n, a)
  }

  lemma CopyIsCopied(mem0: int -> int, to: nat, from: nat, n: nat)
    ensures Copied(to, from, n, mem0, CopyOf(mem0, to, from, n))
  {
    hide CopiedByte;
  }

  lemma ZeroRefused(pools: seq<Pool>, supers: seq<Region>, answers: nat -> Option<nat>)
    requires |pools| == POOLS
    ensures Refused(pools, supers, answers, 0)
  {
  }

  /** A request above 2^21 bytes is always refused. */
  lemma TooLarge(pools: seq<Pool>, supers: seq<Region>, answers: nat -> Option<nat>, n: nat)
    requires |pools| == POOLS && n > Pow2(POOLS - 1)
    ensures Refused(pools, supers, answers, n)
  {
    hide Pow2;
    forall s: nat | 3 <= s < POOLS ensures Pow2(s) < n { Pow2Mono(s, POOLS - 1); }
  }

  /** s is the first class from 3 on that is large enough for n bytes and is served. */
  ghost predicate FirstServed(pools: seq<Pool>, supers: seq<Region>, answers: nat -> Option<nat>, n: nat, s: nat)
    requires |pools| == POOLS
  {
    && 3 <= s < POOLS && n <= Pow2(s) && Served(pools, supers, answers, s)
    && forall t | 3 <= t < s && n <= Pow2(t) :: !Served(pools, supers, answers, t)
  }

  lemma IncreasePositive(s: nat)
    requires 1 < s < POOLS
    ensures 0 < INCREASE[s]
  {
    if s < 12 { assert INCREASE[s] == 8; } else if s == 12 || s == 13 {} else { assert INCREASE[s] == 1; }
  }

  /** The first new block of class s, once there is one. */
  ghost predicate FirstAt(pools0: seq<Pool>, pools: seq<Pool>, s: nat, i: nat, first: nat)
  {
    i > 0 ==> s < |pools0| && s < |pools| && |pools0[s].free| < |pools[s].free| && pools[s].free[|pools0[s].free|] == first
  }

  /** Blocks never change their size class. */
  predicate Kept(size0: map<nat, nat>, size: map<nat, nat>)
  {
    forall h | h in size0 :: h in size && size[h] == size0[h]
  }

  predicate Known(ptr: Option<nat>, size: map<nat, nat>)
  {
    ptr.Some? && HDR <= ptr.value && ptr.value - HDR in size
  }

  predicate Owns(ptr: Option<nat>, live: set<nat>)
  {
    ptr.Some? && HDR <= ptr.value && ptr.value - HDR in live
  }

  /** ptr is the data of a block of at least n bytes that has just come into use. */
  ghost predicate Fresh(ptr: nat, n: nat, size: map<nat, nat>, live0: set<nat>, live: set<nat>)
  {
    && HDR <= ptr && ptr - HDR in size && n <= Pow2(size[ptr - HDR])
    && ptr - HDR !in live0 && live == live0 + {ptr - HDR}
  }

  ghost predicate Copied(to: nat, from: nat, n: nat, mem0: int -> int, mem: int -> int)
  {
    forall a :: mem(a) == CopiedByte(mem0, to, from, n, a)
  }

  /** The growing case of mh_realloc. */
  ghost predicate Moved(ptr: nat, r: Option<nat>, n: nat, size: map<nat, nat>, live0: set<nat>, live: set<nat>,
    mem0: int -> int, mem: int -> int)
  {
    HDR <= ptr && ptr - HDR in size &&
    match r
    case None => live == live0 - {ptr - HDR} && mem == mem0
    case Some(q) =>
      && HDR <= q && q - HDR in size && n <= Pow2(size[q - HDR])
      && q - HDR !in live0 && live == live0 + {q - HDR} - {ptr - HDR}
      && Copied(q, ptr, Pow2(size[ptr - HDR]), mem0, mem)
  }

  lemma PoolParts(pools: seq<Pool>, size: map<nat, nat>, s: nat)
    requires PoolsOk(pools, size) && s < POOLS
    ensures |pools| == POOLS && pools[s].nfree == |pools[s].free| && pools[s].nused == |pools[s].used|
  {
  }

  lemma SizeInRange(supers: seq<Region>, size: map<nat, nat>, h: nat)
    requires BlocksOk(supers, size) && h in size
    ensures size[h] < POOLS
  {
  }

  lemma IsLive(pools: seq<Pool>, size: map<nat, nat>, h: nat)
    requires PoolsOk(pools, size) && h in size && size[h] < POOLS
    ensures h in LiveIn(pools, size) <==> h in pools[size[h]].used
  {
  }

  lemma LiveIsKnown(pools: seq<Pool>, size: map<nat, nat>, h: nat)
    requires PoolsOk(pools, size) && h !in size
    ensures h !in LiveIn(pools, size)
  {
  }

  /** The first free block goes into use. */
  function TakenPool(p: Pool): (r: Pool)
    requires p.free != [] && p.nfree > 0
    ensures p.nmax <= r.nmax && r.nused <= r.nmax && (r.nmax == p.nmax || r.nmax == r.nused) && r.count == p.count
  {
    var nused := p.nused + 1;
    Pool(p.free[1..], [p.free[0]] + p.used, p.nfree - 1, nused, if nused > p.nmax then nused else p.nmax, p.count)
  }

  lemma Taken(pools: seq<Pool>, size: map<nat, nat>, s: nat)
    requires PoolsOk(pools, size) && s < POOLS && pools[s].free != []
    ensures pools[s].nfree > 0
    ensures var h, q := pools[s].free[0], pools[s := TakenPool(pools[s])];
            && h in size && size[h] == s && h !in LiveIn(pools, size)
            && PoolsOk(q, size) && LiveIn(q, size) == LiveIn(pools, size) + {h}
  {
    var p := pools[s];
    var h, q := p.free[0], pools[s := TakenPool(p)];
    assert PoolOk(p, Blocks(size, s));
    TakeFirst(p.free, p.used, Blocks(size, s));
    assert h in Blocks(size, s);
    PoolChanged(pools, size, s, TakenPool(p));
    forall x
      ensures x in LiveIn(q, size) <==> x in LiveIn(pools, size) + {h}
    {
      assert x in [h] + p.used <==> x == h || x in p.used;
    }
  }

  /** A block in use goes to the front of the free list. */
  function GivenPool(p: Pool, h: nat): (r: Pool)
    requires p.nused > 0
    ensures r.nmax == p.nmax && r.count == p.count
  {
    Pool([h] + p.free, Remove(p.used, h), p.nfree + 1, p.nused - 1, p.nmax, p.count)
  }

  lemma Given(pools: seq<Pool>, size: map<nat, nat>, s: nat, h: nat)
    requires PoolsOk(pools, size) && s < POOLS && h in pools[s].used && h in size && size[h] == s
    ensures pools[s].nused > 0
    ensures var q := pools[s := GivenPool(pools[s], h)];
            PoolsOk(q, size) && LiveIn(q, size) == LiveIn(pools, size) - {h}
  {
    var p := pools[s];
    assert PoolOk(p, Blocks(size, s));
    GiveBack(p.free, p.used, Blocks(size, s), h);
    RemoveNoDup(p.used, h);
    var q := pools[s := GivenPool(p, h)];
    PoolChanged(pools, size, s, GivenPool(p, h));
    forall x
      ensures x in LiveIn(q, size) <==> x in LiveIn(pools, size) - {h}
    {
    }
  }

  /** The counters while i of the new blocks of class s are on the list. */
  ghost predicate Growing(pools0: seq<Pool>, pools: seq<Pool>, s: nat, i: nat)
    requires s < POOLS
  {
    && |pools0| == |pools| == POOLS && (forall t | 0 <= t < POOLS && t != s :: pools[t] == pools0[t])
    && |pools[s].free| == |pools0[s].free| + i && pools[s].nfree == pools0[s].nfree + i
    && pools[s].used == pools0[s].used && pools[s].nused == pools0[s].nused && pools[s].count == pools0[s].count + 1
  }

  lemma FirstNone(pools0: seq<Pool>, pools: seq<Pool>, s: nat, first: nat)
    ensures FirstAt(pools0, pools, s, 0, first)
  {
  }

  lemma FirstMore(pools0: seq<Pool>, pools: seq<Pool>, pools': seq<Pool>, s: nat, i: nat, h: nat, first: nat)
    requires s < POOLS && Growing(pools0, pools, s, i) && FirstAt(pools0, pools, s, i, first) && (i == 0 ==> h == first)
    requires |pools'| == POOLS && pools'[s].free == pools[s].free + [h]
    ensures FirstAt(pools0, pools', s, i + 1, first)
  {
  }

  lemma SuperAdded(pools: seq<Pool>, supers: seq<Region>, size: map<nat, nat>, a: nat, n: nat, s: nat)
    requires PoolsOk(pools, size) && BlocksOk(supers, size) && s < POOLS && AllApart(supers, a, n)
    ensures BlocksOk(supers + [Region(a, n)], size)
    ensures PoolsOk(pools[s := pools[s].(count := pools[s].count + 1)], size)
    ensures LiveIn(pools[s := pools[s].(count := pools[s].count + 1)], size) == LiveIn(pools, size)
    ensures forall h | h in size :: Apart(a, n, h, Span(size[h]))
  {
    NewBlockApart(supers, size, a, n, a, n);
    forall h | h in size
      ensures Within(supers + [Region(a, n)], h, Span(size[h]))
    {
      assert Within(supers, h, Span(size[h]));
    }
  }

  lemma NextBlock(span: nat, k: nat)
    requires 0 < k
    ensures span * k == span + span * (k - 1) && 0 <= span * (k - 1)
  {
    Distribute(span, 1, k - 1);
  }

  lemma GrowingStart(pools: seq<Pool>, s: nat)
    requires |pools| == POOLS && s < POOLS
    ensures Growing(pools, pools[s := pools[s].(count := pools[s].count + 1)], s, 0)
  {
  }

  lemma Grown(pools0: seq<Pool>, pools: seq<Pool>, s: nat)
    requires s < POOLS && Conserved(pools0) && Growing(pools0, pools, s, INCREASE[s])
    ensures Conserved(pools) && |pools[s].free| == |pools0[s].free| + INCREASE[s] && pools[s].used == pools0[s].used
  {
    Distribute(INCREASE[s], pools0[s].count, 1);
  }

  /** The data of two different blocks do not overlap. */
  lemma DataApart(supers: seq<Region>, size: map<nat, nat>, h: nat, k: nat)
    requires BlocksOk(supers, size) && h in size && k in size && h != k
    ensures Apart(h + HDR, Pow2(size[h]), k + HDR, Pow2(size[k]))
  {
    assert Apart(h, Span(size[h]), k, Span(size[k]));
  }
}
