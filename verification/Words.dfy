/** Word-vector kernels of bn_asm.c and bn_lcl.h.  C pointers into one block of memory are
    modelled by an array `mem` and offsets into it, so operands may overlap as they do in C. */
module Words {
  import opened Arith
  import opened Limbs

  /** Reading ahead of the write position, or from a separate region. */
  predicate Readable(rp: nat, ap: nat, n: nat)
  {
    rp <= ap || ap + n <= rp
  }

  lemma WordProduct(x: word, y: word)
    ensures 0 <= x * y <= BASE * (BASE - 2) + 1
  {
    MulLe(0, x, y);
    MulLe(x, BASE - 1, y);
  }

  /** bn_mul_add_words: r += a * w over num words, returning the carry word. */
  method MulAddWords(mem: array<word>, rp: nat, ap: nat, num: nat, w: word) returns (c: word)
    requires rp + num <= mem.Length && ap + num <= mem.Length && Readable(rp, ap, num)
    modifies mem
    ensures Outside(old(mem[..]), mem[..], rp, rp + num)
    ensures Num(mem[..], rp, num) + Shl(num, c)
         == old(Num(mem[..], rp, num)) + old(Num(mem[..], ap, num)) * w
  {
    hide Num, Shl;
    ghost var m0 := mem[..];
    c := 0;
    NumNil(m0, rp);
    NumNil(m0, ap);
    ShlZero(0);
    for i := 0 to num
      invariant Outside(m0, mem[..], rp, rp + i)
      invariant Num(mem[..], rp, i) + Shl(i, c) == Num(m0, rp, i) + Num(m0, ap, i) * w
    {
      ghost var m1 := mem[..];
      var x, y := mem[ap + i], mem[rp + i];
      WordProduct(w, x);
      var t := w * x + y + c;
      mem[rp + i] := t % BASE;
      NumSame(m1, rp, mem[..], rp, i);
      NumSnoc(mem[..], rp, i);
      NumSnoc(m0, rp, i);
      NumSnoc(m0, ap, i);
      MulColumn(i, Num(m0, ap, i), w, x, y + c, t % BASE, t / BASE);
      ShlAdd(i, y, c);
      c := t / BASE;
    }
  }

  /** One column of a product: a is what has been multiplied so far, x its next word. */
  lemma MulColumn(i: nat, a: int, w: int, x: int, rest: int, lo: int, hi: int)
    requires lo + BASE * hi == w * x + rest
    ensures a * w + Shl(i, lo) + Shl(i + 1, hi) == (a + Shl(i, x)) * w + Shl(i, rest)
  {
    hide Shl;
    ShlColumn(i, lo, hi);
    ShlAdd(i, w * x, rest);
    ShlMul(i, x, w);
    Distribute(w, a, Shl(i, x));
  }

  /** bn_mul_words: r := a * w over num words, returning the carry word. */
  method MulWords(mem: array<word>, rp: nat, ap: nat, num: nat, w: word) returns (c: word)
    requires rp + num <= mem.Length && ap + num <= mem.Length && Readable(rp, ap, num)
    modifies mem
    ensures Outside(old(mem[..]), mem[..], rp, rp + num)
    ensures Num(mem[..], rp, num) + Shl(num, c) == old(Num(mem[..], ap, num)) * w
  {
    hide Num, Shl;
    ghost var m0 := mem[..];
    c := 0;
    NumNil(m0, rp);
    NumNil(m0, ap);
    ShlZero(0);
    for i := 0 to num
      invariant Outside(m0, mem[..], rp, rp + i)
      invariant Num(mem[..], rp, i) + Shl(i, c) == Num(m0, ap, i) * w
    {
      ghost var m1 := mem[..];
      var x := mem[ap + i];
      WordProduct(w, x);
      var t := w * x + c;
      mem[rp + i] := t % BASE;
      NumSame(m1, rp, mem[..], rp, i);
      NumSnoc(mem[..], rp, i);
      NumSnoc(m0, ap, i);
      MulColumn(i, Num(m0, ap, i), w, x, c, t % BASE, t / BASE);
      c := t / BASE;
    }
  }

  /** bn_add_words: r := a + b over n words, returning the carry. */
  method AddWords(mem: array<word>, rp: nat, ap: nat, bp: nat, n: nat) returns (c: word)
    requires rp + n <= mem.Length && ap + n <= mem.Length && bp + n <= mem.Length
    requires Readable(rp, ap, n) && Readable(rp, bp, n)
    modifies mem
    ensures Outside(old(mem[..]), mem[..], rp, rp + n)
    ensures c <= 1
    ensures Num(mem[..], rp, n) + Shl(n, c) == old(Num(mem[..], ap, n)) + old(Num(mem[..], bp, n))
  {
    hide Num, Shl;
    ghost var m0 := mem[..];
    c := 0;
    NumNil(m0, rp);
    NumNil(m0, ap);
    NumNil(m0, bp);
    ShlZero(0);
    for i := 0 to n
      invariant c <= 1
      invariant Outside(m0, mem[..], rp, rp + i)
      invariant Num(mem[..], rp, i) + Shl(i, c) == Num(m0, ap, i) + Num(m0, bp, i)
    {
      ghost var m1 := mem[..];
      var x, y := mem[ap + i], mem[bp + i];
      var ll := c + x + y;
      mem[rp + i] := ll % BASE;
      NumSame(m1, rp, mem[..], rp, i);
      NumSnoc(mem[..], rp, i);
      NumSnoc(m0, ap, i);
      NumSnoc(m0, bp, i);
      AddColumn(i, c, x, y, ll % BASE, ll / BASE);
      c := ll / BASE;
    }
  }

  lemma AddColumn(i: nat, c: int, x: int, y: int, lo: int, hi: int)
    requires lo + BASE * hi == c + x + y
    ensures Shl(i, lo) + Shl(i + 1, hi) == Shl(i, c) + Shl(i, x) + Shl(i, y)
  {
    hide Shl;
    ShlColumn(i, lo, hi);
    ShlAdd(i, c + x, y);
    ShlAdd(i, c, x);
  }

  /** bn_sub_words: r := a - b over n words, returning the borrow. */
  method SubWords(mem: array<word>, rp: nat, ap: nat, bp: nat, n: nat) returns (c: word)
    requires rp + n <= mem.Length && ap + n <= mem.Length && bp + n <= mem.Length
    requires Readable(rp, ap, n) && Readable(rp, bp, n)
    modifies mem
    ensures Outside(old(mem[..]), mem[..], rp, rp + n)
    ensures c <= 1
    ensures Num(mem[..], rp, n) + old(Num(mem[..], bp, n)) == old(Num(mem[..], ap, n)) + Shl(n, c)
  {
    hide Num, Shl;
    ghost var m0 := mem[..];
    c := 0;
    NumNil(m0, rp);
    NumNil(m0, ap);
    NumNil(m0, bp);
    ShlZero(0);
    for i := 0 to n
      invariant c <= 1
      invariant Outside(m0, mem[..], rp, rp + i)
      invariant Num(mem[..], rp, i) + Num(m0, bp, i) == Num(m0, ap, i) + Shl(i, c)
    {
      ghost var m1 := mem[..];
      var t1, t2 := mem[ap + i], mem[bp + i];
      ghost var borrow := c;
      mem[rp + i] := (t1 - t2 - c) % BASE;
      if t1 != t2 { c := if t1 < t2 then 1 else 0; }
      NumSame(m1, rp, mem[..], rp, i);
      NumSnoc(mem[..], rp, i);
      NumSnoc(m0, ap, i);
      NumSnoc(m0, bp, i);
      AddColumn(i, borrow, t2, mem[rp + i], t1, c);
    }
  }

  /** bn_cmp_words: three-way comparison from the most significant word down. */
  method CmpWords(mem: array<word>, ap: nat, bp: nat, n: nat) returns (r: int)
    requires ap + n <= mem.Length && bp + n <= mem.Length
    ensures r == if Num(mem[..], ap, n) < Num(mem[..], bp, n) then -1
                 else if Num(mem[..], ap, n) == Num(mem[..], bp, n) then 0 else 1
  {
    var i := n;
    while i > 0
      invariant 0 <= i <= n
      invariant Num(mem[..], ap, n) - Num(mem[..], bp, n) == Num(mem[..], ap, i) - Num(mem[..], bp, i)
    {
      i := i - 1;
      if mem[ap + i] != mem[bp + i] {
        TopWordDecides(mem[..], ap, mem[..], bp, i);
        return if mem[ap + i] > mem[bp + i] then 1 else -1;
      }
    }
    r := 0;
  }

  lemma TopWordDecides(s: seq<word>, p: nat, t: seq<word>, q: nat, i: nat)
    requires p + i < |s| && q + i < |t| && s[p + i] != t[q + i]
    ensures s[p + i] < t[q + i] <==> Num(s, p, i + 1) < Num(t, q, i + 1)
    ensures Num(s, p, i + 1) != Num(t, q, i + 1)
  {
    var x: int, y: int := s[p + i], t[q + i];
    NumBound(s, p, i);
    NumBound(t, q, i);
    ShlLess(i, x + 1, y);
    ShlLess(i, y + 1, x);
    ShlLess(i, x + 1, y + 1);
    ShlAdd(i, x, 1);
    ShlAdd(i, y, 1);
  }

  /** Add v at the bottom of the words p .. p+n-1 and let the carry ripple upwards: the tail of
      the word loops of BN_from_montgomery, bn_mul_recursive and bn_sqr_recursive.  The carry
      dies inside the window whenever the sum fits in it. */
  method RippleAdd(mem: array<word>, p: nat, n: nat, v: word)
    requires 0 < n && p + n <= mem.Length
    requires Num(mem[..], p, n) + v < BPow(n)
    modifies mem
    ensures Outside(old(mem[..]), mem[..], p, p + n)
    ensures Num(mem[..], p, n) == old(Num(mem[..], p, n)) + v
  {
    hide Num, Shl;
    ghost var m0 := mem[..];
    NumFront(m0, p, n);
    var x := (mem[p] + v) % BASE;
    mem[p] := x;
    NumSame(m0, p + 1, mem[..], p + 1, n - 1);
    if x < v {
      assert m0[p] + v == x + BASE;
      BPowNext(n - 1);
      RippleOne(mem, p + 1, n - 1);
    }
    NumFront(mem[..], p, n);
  }

  method RippleOne(mem: array<word>, p: nat, n: nat)
    requires p + n <= mem.Length
    requires Num(mem[..], p, n) + 1 < BPow(n)
    modifies mem
    ensures Outside(old(mem[..]), mem[..], p, p + n)
    ensures Num(mem[..], p, n) == old(Num(mem[..], p, n)) + 1
  {
    hide Num, Shl;
    ghost var m0 := mem[..];
    var q := 0;
    NumNil(m0, p);
    BPowNext(0);
    while mem[p + q] == BASE - 1
      invariant 0 <= q < n
      invariant Outside(m0, mem[..], p, p + q)
      invariant forall i | p <= i < p + q :: mem[i] == 0
      invariant Num(m0, p, q) + 1 == BPow(q)
      decreases n - q
    {
      mem[p + q] := 0;
      NumSnoc(m0, p, q);
      ShlAdd(q, BASE - 1, 1);
      ShlColumn(q, 0, 1);
      ShlZero(q);
      q := q + 1;
    }
    ghost var m1 := mem[..];
    mem[p + q] := mem[p + q] + 1;
    NumSplit(m0, p, q, n - q);
    NumSplit(mem[..], p, q, n - q);
    NumZeros(mem[..], p, q);
    NumFront(m0, p + q, n - q);
    NumFront(mem[..], p + q, n - q);
    NumSame(m0, p + q + 1, mem[..], p + q + 1, n - q - 1);
    ShlAdd(q, Num(m0, p + q, n - q), 1);
  }
}
