/** Products of word vectors: bn_mul.c and bn_sqr.c. */
module Multiply {
  import opened Arith
  import opened Limbs
  import opened Words

  /** bn_mul_normal: schoolbook product, one row per word of the shorter operand. */
  method MulNormal(mem: array<word>, r: nat, a: nat, na: nat, b: nat, nb: nat)
    requires 0 < na && 0 < nb
    requires r + na + nb <= mem.Length && a + na <= mem.Length && b + nb <= mem.Length
    requires Apart(r, na + nb, a, na) && Apart(r, na + nb, b, nb)
    modifies mem
    ensures Outside(old(mem[..]), mem[..], r, r + na + nb)
    ensures Num(mem[..], r, na + nb) == old(Num(mem[..], a, na)) * old(Num(mem[..], b, nb))
  {
    if na < nb {
      MulRows(mem, r, b, nb, a, na);
    } else {
      MulRows(mem, r, a, na, b, nb);
    }
  }

  method MulRows(mem: array<word>, r: nat, a: nat, na: nat, b: nat, nb: nat)
    requires 0 < na && 0 < nb
    requires r + na + nb <= mem.Length && a + na <= mem.Length && b + nb <= mem.Length
    requires Apart(r, na + nb, a, na) && Apart(r, na + nb, b, nb)
    modifies mem
    ensures Outside(old(mem[..]), mem[..], r, r + na + nb)
    ensures Num(mem[..], r, na + nb) == old(Num(mem[..], a, na)) * old(Num(mem[..], b, nb))
  {
    hide Num, Shl;
    ghost var m0 := mem[..];
    var c := MulWords(mem, r, a, na, mem[b]);
    ghost var m1 := mem[..];
    mem[r + na] := c;
    NumSame(m1, r, mem[..], r, na);
    NumSnoc(mem[..], r, na);
    NumSnoc(m0, b, 0);
    NumNil(m0, b);
    ShlColumn(0, m0[b], 0);
    var j := 1;
    ShlWord(m0[b]);
    while j < nb
      invariant 1 <= j <= nb
      invariant Outside(m0, mem[..], r, r + na + j)
      invariant Num(mem[..], r, na + j) == Num(m0, a, na) * Num(m0, b, j)
    {
      MulRow(mem, r, a, na, b, j, m0);
      j := j + 1;
    }
  }

  /** One more row of the schoolbook product. */
  method MulRow(mem: array<word>, r: nat, a: nat, na: nat, b: nat, j: nat, ghost m0: seq<word>)
    requires 0 < na && r + na + j < mem.Length && a + na <= mem.Length && b + j < mem.Length
    requires Apart(r, na + j + 1, a, na) && Apart(r, na + j + 1, b, j + 1)
    requires Outside(m0, mem[..], r, r + na + j)
    requires Num(mem[..], r, na + j) == Num(m0, a, na) * Num(m0, b, j)
    modifies mem
    ensures Outside(m0, mem[..], r, r + na + j + 1)
    ensures Num(mem[..], r, na + j + 1) == Num(m0, a, na) * Num(m0, b, j + 1)
  {
    hide Num, Shl;
    ghost var m1 := mem[..];
    NumSame(m0, a, m1, a, na);
    var c := MulAddWords(mem, r + j, a, na, mem[b + j]);
    ghost var m2 := mem[..];
    mem[r + na + j] := c;
    NumSame(m2, r + j, mem[..], r + j, na);
    NumSame(m1, r, mem[..], r, j);
    RowProduct(m0, m1, mem[..], r, a, na, b, j);
  }

  lemma RowProduct(m0: seq<word>, m1: seq<word>, m3: seq<word>, r: nat, a: nat, na: nat, b: nat, j: nat)
    requires |m0| == |m1| == |m3| && r + na + j < |m1| && a + na <= |m0| && b + j < |m0|
    requires Num(m3, r, j) == Num(m1, r, j)
    requires Num(m3, r + j, na) + Shl(na, m3[r + na + j]) == Num(m1, r + j, na) + Num(m0, a, na) * m0[b + j]
    requires Num(m1, r, na + j) == Num(m0, a, na) * Num(m0, b, j)
    ensures Num(m3, r, na + j + 1) == Num(m0, a, na) * Num(m0, b, j + 1)
  {
    hide Num, Shl;
    Row(m1, m3, r, j, na, Num(m0, a, na) * m0[b + j]);
    NumSnoc(m0, b, j);
    ShlMul(j, m0[b + j], Num(m0, a, na));
    Distribute(Num(m0, a, na), Num(m0, b, j), Shl(j, m0[b + j]));
  }

  lemma ShlWord(x: int)
    ensures Shl(0, x) == x
  {
  }

  /** Adding one row x of the product at word j, where na words and a fresh carry word take it. */
  lemma Row(m1: seq<word>, m3: seq<word>, r: nat, j: nat, na: nat, x: int)
    requires |m1| == |m3| && r + na + j < |m1|
    requires Num(m3, r, j) == Num(m1, r, j)
    requires Num(m3, r + j, na) + Shl(na, m3[r + na + j]) == Num(m1, r + j, na) + x
    ensures Num(m3, r, na + j + 1) == Num(m1, r, na + j) + Shl(j, x)
  {
    hide Num, Shl;
    NumSplit(m1, r, j, na);
    NumSplit(m3, r, j, na + 1);
    NumSnoc(m3, r + j, na);
    ShlAdd(j, Num(m1, r + j, na), x);
  }

  // ---------- Karatsuba ----------

  predicate PowerOfTwo(n: nat)
  {
    n == 1 || (n > 1 && n % 2 == 0 && PowerOfTwo(n / 2))
  }

  /** Words agree outside two windows, of k words at p and of l words at q. */
  ghost predicate Outside2(m0: seq<word>, m1: seq<word>, p: nat, k: nat, q: nat, l: nat)
  {
    |m0| == |m1| && forall i | 0 <= i < |m0| && !(p <= i < p + k) && !(q <= i < q + l) :: m0[i] == m1[i]
  }

  /** BN_MUL_RECURSIVE_SIZE_NORMAL and BN_SQR_RECURSIVE_SIZE_NORMAL (bn_lcl.h:183-184). */
  const RECURSIVE_SIZE: nat := 16

  /** bn_mul_recursive.  Although the source asks for 2*n2 scratch words, the recursion reaches
      up to 4*n2, which is what BN_mul allocates. */
  method MulRecursive(mem: array<word>, r: nat, a: nat, b: nat, n2: nat, t: nat)
    requires PowerOfTwo(n2)
    requires r + 2 * n2 <= mem.Length && t + 4 * n2 <= mem.Length
    requires a + n2 <= mem.Length && b + n2 <= mem.Length
    requires Apart(r, 2 * n2, t, 4 * n2)
    requires Apart(r, 2 * n2, a, n2) && Apart(r, 2 * n2, b, n2)
    requires Apart(t, 4 * n2, a, n2) && Apart(t, 4 * n2, b, n2)
    modifies mem
    ensures Outside2(old(mem[..]), mem[..], r, 2 * n2, t, 4 * n2)
    ensures Num(mem[..], r, 2 * n2) == old(Num(mem[..], a, n2)) * old(Num(mem[..], b, n2))
    decreases n2, 0
  {
    hide Num, Shl;
    if n2 < RECURSIVE_SIZE {
      MulNormal(mem, r, a, n2, b, n2);
      return;
    }
    Split(mem, r, a, b, n2 / 2, t);
  }

  /** The recursive case of bn_mul_recursive, on operands of 2n words. */
  method Split(mem: array<word>, r: nat, a: nat, b: nat, n: nat, t: nat)
    requires 0 < n && PowerOfTwo(n)
    requires r + 4 * n <= mem.Length && t + 8 * n <= mem.Length
    requires a + 2 * n <= mem.Length && b + 2 * n <= mem.Length
    requires Apart(r, 4 * n, t, 8 * n)
    requires Apart(r, 4 * n, a, 2 * n) && Apart(r, 4 * n, b, 2 * n)
    requires Apart(t, 8 * n, a, 2 * n) && Apart(t, 8 * n, b, 2 * n)
    modifies mem
    ensures Outside2(old(mem[..]), mem[..], r, 4 * n, t, 8 * n)
    ensures Num(mem[..], r, 4 * n) == old(Num(mem[..], a, 2 * n)) * old(Num(mem[..], b, 2 * n))
    decreases n, 2
  {
    hide Num, Shl, PowerOfTwo, Outside, Outside2, Apart;
    ghost var m0 := mem[..];
    ScratchApart(r, a, n, t);
    ScratchApart(r, b, n, t);
    var zero, neg := Differences(mem, a, b, n, t);
    ghost var m1 := mem[..];
    MiddleProduct(mem, n, t, zero);
    ghost var m2 := mem[..];
    ScratchWrites(m0, m1, m2, a, n, t);
    ScratchWrites(m0, m1, m2, b, n, t);
    OuterProducts(mem, r, a, b, n, t + 4 * n);
    ghost var m3 := mem[..];
    Untouched(m2, m3, r, 4 * n, t + 4 * n, 4 * n, t + 2 * n, 2 * n);
    Assemble(m0, m3, r, a, b, n, t, neg);
    Combine(mem, r, n, t, neg, Num(m0, a, n) * Num(m0, b + n, n) + Num(m0, a + n, n) * Num(m0, b, n));
    AllWrites(m0, m2, m3, mem[..], r, n, t);
  }

  lemma ScratchApart(r: nat, a: nat, n: nat, t: nat)
    requires Apart(r, 4 * n, t, 8 * n) && Apart(r, 4 * n, a, 2 * n) && Apart(t, 8 * n, a, 2 * n)
    ensures Apart(t, 2 * n, a, 2 * n) && Apart(r, 4 * n, t + 4 * n, 4 * n) && Apart(t + 4 * n, 4 * n, a, 2 * n)
    ensures Apart(r, 4 * n, t + 2 * n, 2 * n) && Apart(t + 4 * n, 4 * n, t + 2 * n, 2 * n)
    ensures Apart(r, 4 * n, t, 4 * n)
  {
  }

  /** Differences and MiddleProduct write to the scratch area only. */
  lemma ScratchWrites(m0: seq<word>, m1: seq<word>, m2: seq<word>, a: nat, n: nat, t: nat)
    requires Outside(m0, m1, t, t + 2 * n) && Outside(m1, m2, t + 2 * n, t + 8 * n)
    requires a + 2 * n <= |m0| && Apart(t, 8 * n, a, 2 * n)
    ensures Outside(m0, m2, t, t + 8 * n)
    ensures Num(m2, a, n) == Num(m0, a, n) && Num(m2, a + n, n) == Num(m0, a + n, n)
  {
    hide Num;
    NumSame(m0, a, m2, a, n);
    NumSame(m0, a + n, m2, a + n, n);
  }

  lemma AllWrites(m0: seq<word>, m2: seq<word>, m3: seq<word>, m4: seq<word>, r: nat, n: nat, t: nat)
    requires Outside(m0, m2, t, t + 8 * n)
    requires Outside2(m2, m3, r, 4 * n, t + 4 * n, 4 * n)
    requires Outside2(m3, m4, r, 4 * n, t, 4 * n)
    ensures Outside2(m0, m4, r, 4 * n, t, 8 * n)
  {
  }

  /** The product of the two differences, into t[n2..2*n2). */
  method MiddleProduct(mem: array<word>, n: nat, t: nat, zero: bool)
    requires PowerOfTwo(n) && t + 8 * n <= mem.Length
    modifies mem
    ensures Outside(old(mem[..]), mem[..], t + 2 * n, t + 8 * n)
    ensures Num(mem[..], t + 2 * n, 2 * n)
         == if zero then 0 else old(Num(mem[..], t, n)) * old(Num(mem[..], t + n, n))
    decreases n, 1
  {
    hide Num, Shl, PowerOfTwo;
    if zero {
      ClearWords(mem, t + 2 * n, 2 * n);
    } else {
      MulRecursive(mem, t + 2 * n, t, t + n, n, t + 4 * n);
    }
  }

  /** The products of the low halves and of the high halves, into r. */
  method OuterProducts(mem: array<word>, r: nat, a: nat, b: nat, n: nat, t: nat)
    requires PowerOfTwo(n)
    requires r + 4 * n <= mem.Length && t + 4 * n <= mem.Length
    requires a + 2 * n <= mem.Length && b + 2 * n <= mem.Length
    requires Apart(r, 4 * n, t, 4 * n)
    requires Apart(r, 4 * n, a, 2 * n) && Apart(r, 4 * n, b, 2 * n)
    requires Apart(t, 4 * n, a, 2 * n) && Apart(t, 4 * n, b, 2 * n)
    modifies mem
    ensures Outside2(old(mem[..]), mem[..], r, 4 * n, t, 4 * n)
    ensures Num(mem[..], r, 2 * n) == old(Num(mem[..], a, n)) * old(Num(mem[..], b, n))
    ensures Num(mem[..], r + 2 * n, 2 * n) == old(Num(mem[..], a + n, n)) * old(Num(mem[..], b + n, n))
    decreases n, 1
  {
    hide Num, Shl, PowerOfTwo, Outside2, Apart;
    ghost var m0 := mem[..];
    OuterApart(r, a, n, t);
    OuterApart(r, b, n, t);
    MulRecursive(mem, r, a, b, n, t);
    ghost var m1 := mem[..];
    Untouched(m0, m1, r, 2 * n, t, 4 * n, a + n, n);
    Untouched(m0, m1, r, 2 * n, t, 4 * n, b + n, n);
    MulRecursive(mem, r + 2 * n, a + n, b + n, n, t);
    Untouched(m1, mem[..], r + 2 * n, 2 * n, t, 4 * n, r, 2 * n);
    TwoWrites(m0, m1, mem[..], r, n, t);
  }

  /** The regions used by the two outer products do not meet. */
  lemma OuterApart(r: nat, a: nat, n: nat, t: nat)
    requires Apart(r, 4 * n, t, 4 * n) && Apart(r, 4 * n, a, 2 * n) && Apart(t, 4 * n, a, 2 * n)
    ensures Apart(r, 2 * n, t, 4 * n) && Apart(r + 2 * n, 2 * n, t, 4 * n)
    ensures Apart(r, 2 * n, a, n) && Apart(r, 2 * n, a + n, n) && Apart(r + 2 * n, 2 * n, a + n, n)
    ensures Apart(t, 4 * n, a, n) && Apart(t, 4 * n, a + n, n)
    ensures Apart(r + 2 * n, 2 * n, r, 2 * n) && Apart(t, 4 * n, r, 2 * n)
  {
  }

  lemma TwoWrites(m0: seq<word>, m1: seq<word>, m2: seq<word>, r: nat, n: nat, t: nat)
    requires Outside2(m0, m1, r, 2 * n, t, 4 * n)
    requires Outside2(m1, m2, r + 2 * n, 2 * n, t, 4 * n)
    ensures Outside2(m0, m2, r, 4 * n, t, 4 * n)
  {
  }

  /** A number lying apart from both windows keeps its value. */
  lemma Untouched(m0: seq<word>, m1: seq<word>, p: nat, k: nat, q: nat, l: nat, a: nat, n: nat)
    requires Outside2(m0, m1, p, k, q, l)
    requires a + n <= |m0| && Apart(p, k, a, n) && Apart(q, l, a, n)
    ensures |m0| == |m1| && Num(m0, a, n) == Num(m1, a, n)
  {
    NumSame(m0, a, m1, a, n);
  }

  method ClearWords(mem: array<word>, p: nat, n: nat)
    requires p + n <= mem.Length
    modifies mem
    ensures Outside(old(mem[..]), mem[..], p, p + n)
    ensures Num(mem[..], p, n) == 0
  {
    ghost var m0 := mem[..];
    for i := 0 to n
      invariant Outside(m0, mem[..], p, p + n)
      invariant forall k | p <= k < p + i :: mem[k] == 0
    {
      mem[p + i] := 0;
    }
    NumZeros(mem[..], p, n);
  }

  /** From the three half-size products in m to the precondition of Combine. */
  lemma Assemble(m0: seq<word>, m: seq<word>, r: nat, a: nat, b: nat, n: nat, t: nat, neg: bool)
    requires |m| == |m0| && r + 4 * n <= |m| && t + 4 * n <= |m| && a + 2 * n <= |m| && b + 2 * n <= |m|
    requires Num(m, r, 2 * n) == Num(m0, a, n) * Num(m0, b, n)
    requires Num(m, r + 2 * n, 2 * n) == Num(m0, a + n, n) * Num(m0, b + n, n)
    requires var d := (Num(m0, a, n) - Num(m0, a + n, n)) * (Num(m0, b + n, n) - Num(m0, b, n));
             Num(m, t + 2 * n, 2 * n) == if neg then -d else d
    ensures var x := Num(m0, a, n) * Num(m0, b + n, n) + Num(m0, a + n, n) * Num(m0, b, n);
            && 0 <= x == MiddleSum(m, r, n, t, neg)
            && Num(m, r, 4 * n) + Shl(n, x) == Num(m0, a, 2 * n) * Num(m0, b, 2 * n) < BPow(4 * n)
  {
    hide Num, Shl;
    var a0, a1, b0, b1 := Num(m0, a, n), Num(m0, a + n, n), Num(m0, b, n), Num(m0, b + n, n);
    Karatsuba(n, a0, a1, b0, b1);
    MulLe(0, a0, b1);
    MulLe(0, a1, b0);
    NumSplit(m, r, 2 * n, 2 * n);
    NumSplit(m0, a, n, n);
    NumSplit(m0, b, n, n);
    NumBound(m0, a, 2 * n);
    NumBound(m0, b, 2 * n);
    ProductBound(2 * n, Num(m0, a, 2 * n), Num(m0, b, 2 * n));
  }

  /** The identity behind the three-product scheme, and what it means for the full product. */
  lemma Karatsuba(n: nat, a0: int, a1: int, b0: int, b1: int)
    ensures a0 * b1 + a1 * b0 == a0 * b0 + a1 * b1 + (a0 - a1) * (b1 - b0)
    ensures (a0 + Shl(n, a1)) * (b0 + Shl(n, b1))
         == a0 * b0 + Shl(n, a0 * b1 + a1 * b0) + Shl(2 * n, a1 * b1)
  {
    hide Shl;
    MiddleProducts(a0, a1, b0, b1);
    FourProducts(a0, Shl(n, a1), b0, Shl(n, b1));
    ShlMul(n, b1, a0);
    ShlMul(n, a1, b0);
    ShlSquare(n, a1, b1);
    ShlAdd(n, a0 * b1, a1 * b0);
  }

  lemma MiddleProducts(a0: int, a1: int, b0: int, b1: int)
    ensures a0 * b1 + a1 * b0 == a0 * b0 + a1 * b1 + (a0 - a1) * (b1 - b0)
  {
    FourProducts(a0, -a1, b1, -b0);
    Signs(a1, b1);
    Signs(a1, b0);
    Signs(a0, b0);
  }

  lemma ShlSquare(n: nat, x: int, y: int)
    ensures Shl(n, x) * Shl(n, y) == Shl(2 * n, x * y)
  {
    hide Shl;
    ShlMul(n, x, Shl(n, y));
    ShlMul(n, y, x);
    ShlShl(n, n, x * y);
  }

  /** Whatever computes the product in n words writes the same words. */
  lemma SameWords(m: seq<word>, r: nat, m': seq<word>, r': nat, n: nat, a: int, b: int)
    requires r + n <= |m| && r' + n <= |m'| && Num(m, r, n) == a * b == Num(m', r', n)
    ensures forall i | r <= i < r + n :: m[i] == m'[r' + i - r]
  {
    hide Num;
    NumInjective(m, r, m', r', n);
  }

  lemma FourProducts(a: int, b: int, c: int, d: int)
    ensures (a + b) * (c + d) == a * c + a * d + b * c + b * d
  {
    Distribute(c + d, a, b);
    Distribute(a, c, d);
    Distribute(b, c, d);
  }

  lemma ProductBound(n: nat, x: int, y: int)
    requires 0 <= x < BPow(n) && 0 <= y < BPow(n)
    ensures 0 <= x * y < BPow(2 * n)
  {
    MulLe(0, x, y);
    MulLe(x, BPow(n), y);
    MulLt(y, BPow(n), BPow(n));
    BPowAdd(n, n);
  }

  /** t[0..n) := |a0 - a1| and t[n..2n) := |b1 - b0|, with the sign of their product. */
  method Differences(mem: array<word>, a: nat, b: nat, n: nat, t: nat) returns (zero: bool, neg: bool)
    requires t + 2 * n <= mem.Length && a + 2 * n <= mem.Length && b + 2 * n <= mem.Length
    requires Apart(t, 2 * n, a, 2 * n) && Apart(t, 2 * n, b, 2 * n)
    modifies mem
    ensures Outside(old(mem[..]), mem[..], t, t + 2 * n)
    ensures var d := old((Num(mem[..], a, n) - Num(mem[..], a + n, n)) * (Num(mem[..], b + n, n) - Num(mem[..], b, n)));
            if zero then d == 0 && !neg
            else if neg then Num(mem[..], t, n) * Num(mem[..], t + n, n) == -d
            else Num(mem[..], t, n) * Num(mem[..], t + n, n) == d
  {
    hide Num, Shl;
    ghost var m0 := mem[..];
    ghost var x := Num(m0, a, n) - Num(m0, a + n, n);
    ghost var y := Num(m0, b + n, n) - Num(m0, b, n);
    var c1 := CmpWords(mem, a, a + n, n);
    var c2 := CmpWords(mem, b + n, b, n);
    zero, neg := false, false;
    if c1 == 0 || c2 == 0 {
      zero := true;
    } else {
      if c1 < 0 { Subtract(mem, t, a + n, a, n); } else { Subtract(mem, t, a, a + n, n); }
      ghost var m1 := mem[..];
      NumSame(m0, b, m1, b, n);
      NumSame(m0, b + n, m1, b + n, n);
      if c2 < 0 { Subtract(mem, t + n, b, b + n, n); } else { Subtract(mem, t + n, b + n, b, n); }
      NumSame(m1, t, mem[..], t, n);
      neg := c1 != c2;
      Signs(x, y);
    }
  }

  /** bn_sub_words on operands already compared, so that no borrow is left. */
  method Subtract(mem: array<word>, r: nat, a: nat, b: nat, n: nat)
    requires r + n <= mem.Length && a + n <= mem.Length && b + n <= mem.Length
    requires Readable(r, a, n) && Readable(r, b, n)
    requires Num(mem[..], b, n) <= Num(mem[..], a, n)
    modifies mem
    ensures Outside(old(mem[..]), mem[..], r, r + n)
    ensures Num(mem[..], r, n) == old(Num(mem[..], a, n)) - old(Num(mem[..], b, n))
  {
    hide Num, Shl;
    var c := SubWords(mem, r, a, b, n);
    NumBound(mem[..], r, n);
    ShlZero(n);
  }

  /** The carry handling at the end of bn_mul_recursive and bn_sqr_recursive: r holds the low
      and high products, t[n2..2*n2) the absolute middle product, and mid is their combination.
      The combined carry c1 is never negative and the last ripple stays inside r. */
  method Combine(mem: array<word>, r: nat, n: nat, t: nat, neg: bool, ghost mid: int)
    requires 0 < n && r + 4 * n <= mem.Length && t + 4 * n <= mem.Length && Apart(r, 4 * n, t, 4 * n)
    requires 0 <= mid && MiddleSum(mem[..], r, n, t, neg) == mid
    requires Num(mem[..], r, 4 * n) + Shl(n, mid) < BPow(4 * n)
    modifies mem
    ensures Outside2(old(mem[..]), mem[..], r, 4 * n, t, 4 * n)
    ensures Num(mem[..], r, 4 * n) == old(Num(mem[..], r, 4 * n)) + Shl(n, mid)
  {
    hide Num, Shl;
    ghost var m0 := mem[..];
    var c1 := MiddleTerm(mem, r, n, t, neg, mid);
    ghost var m1 := mem[..];
    NumSame(m0, r, m1, r, 4 * n);
    AddMiddle(mem, r, n, t + 2 * n, c1, mid);
  }

  ghost function MiddleSum(m: seq<word>, r: nat, n: nat, t: nat, neg: bool): int
    requires r + 4 * n <= |m| && t + 4 * n <= |m|
  {
    var p: int := Num(m, t + 2 * n, 2 * n);
    Num(m, r, 2 * n) + Num(m, r + 2 * n, 2 * n) + (if neg then -p else p)
  }

  /** t[n2..2*n2) and the returned carry hold low + high +/- middle product. */
  method MiddleTerm(mem: array<word>, r: nat, n: nat, t: nat, neg: bool, ghost mid: int) returns (c1: int)
    requires 0 < n && r + 4 * n <= mem.Length && t + 4 * n <= mem.Length && Apart(r, 4 * n, t, 4 * n)
    requires 0 <= mid && MiddleSum(mem[..], r, n, t, neg) == mid
    modifies mem
    ensures Outside(old(mem[..]), mem[..], t, t + 4 * n)
    ensures 0 <= c1 <= 2
    ensures Num(mem[..], t + 2 * n, 2 * n) + Shl(2 * n, c1) == mid
  {
    hide Num, Shl;
    ghost var m0 := mem[..];
    var n2 := 2 * n;
    c1 := AddWords(mem, t, r, r + n2, n2);
    NumSame(m0, t + n2, mem[..], t + n2, n2);
    ghost var k1 := c1;
    var k;
    if neg {
      k := SubWords(mem, t + n2, t, t + n2, n2);
      c1 := c1 - k;
    } else {
      k := AddWords(mem, t + n2, t + n2, t, n2);
      c1 := c1 + k;
    }
    ShlAdd(n2, k1, k);
    NumBound(mem[..], t + n2, n2);
    ShlLess(n2, -1, c1);
    ShlAdd(n2, 0, 1);
    ShlZero(n2);
  }

  /** Add the middle term x (2n words at p, carry c1) into r, n words up. */
  method AddMiddle(mem: array<word>, r: nat, n: nat, p: nat, c1: int, ghost x: int)
    requires 0 < n && r + 4 * n <= mem.Length && p + 2 * n <= mem.Length && Apart(r, 4 * n, p, 2 * n)
    requires 0 <= c1 <= 2 && Num(mem[..], p, 2 * n) + Shl(2 * n, c1) == x
    requires Num(mem[..], r, 4 * n) + Shl(n, x) < BPow(4 * n)
    modifies mem
    ensures Outside(old(mem[..]), mem[..], r, r + 4 * n)
    ensures Num(mem[..], r, 4 * n) == old(Num(mem[..], r, 4 * n)) + Shl(n, x)
  {
    hide Num, Shl;
    ghost var m0 := mem[..];
    var n2 := 2 * n;
    var k := AddWords(mem, r + n, r + n, p, n2);
    var c := c1 + k;
    ghost var m1 := mem[..];
    NumSame(m0, r, m1, r, n);
    NumSame(m0, r + n + n2, m1, r + n + n2, n);
    ShlAdd(n2, c1, k);
    Thirds(m0, r, n);
    Thirds(m1, r, n);
    MiddleFits(n, Num(m0, r, n), Num(m0, r + n, n2), Num(m0, r + n + n2, n), x, Num(m1, r + n, n2), c);
    if c != 0 {
      RippleAdd(mem, r + n + n2, n, c);
      NumSame(m1, r, mem[..], r, n);
      NumSame(m1, r + n, mem[..], r + n, n2);
    }
    Thirds(mem[..], r, n);
  }

  /** What is left for the top n words after the middle 2n words have been added. */
  lemma MiddleFits(n: nat, low: nat, mid: int, top: int, x: int, mid': nat, c: int)
    requires mid' + Shl(2 * n, c) == mid + x
    requires low + Shl(n, mid) + Shl(n + 2 * n, top) + Shl(n, x) < BPow(4 * n)
    ensures low + Shl(n, mid') + Shl(n + 2 * n, top + c)
         == low + Shl(n, mid) + Shl(n + 2 * n, top) + Shl(n, x)
    ensures top + c < BPow(n)
  {
    hide Shl;
    ShlAdd(n, mid, x);
    ShlAdd(n, mid', Shl(2 * n, c));
    ShlShl(n, 2 * n, c);
    ShlAdd(n + 2 * n, top, c);
    ShlNat(n, mid');
    ShlShl(n + 2 * n, n, 1);
    ShlLess(n + 2 * n, top + c, BPow(n));
  }

  lemma Thirds(m: seq<word>, r: nat, n: nat)
    requires r + 4 * n <= |m|
    ensures Num(m, r, 4 * n)
         == Num(m, r, n) + Shl(n, Num(m, r + n, 2 * n)) + Shl(n + 2 * n, Num(m, r + n + 2 * n, n))
  {
    hide Num, Shl;
    NumSplit(m, r, n, 3 * n);
    NumSplit(m, r + n, 2 * n, n);
    ShlAdd(n, Num(m, r + n, 2 * n), Shl(2 * n, Num(m, r + n + 2 * n, n)));
    ShlShl(n, 2 * n, Num(m, r + n + 2 * n, n));
  }

  // ---------- squaring ----------

  /** Sum of the squares of the first k words, each at twice its own weight. */
  ghost function Squares(m: seq<word>, a: nat, k: nat): int
    requires a + k <= |m|
  {
    if k == 0 then 0 else
      var x: int := m[a + k - 1];
      Squares(m, a, k - 1) + Shl(2 * (k - 1), x * x)
  }

  /** Sum of the first k rows of products of each word with the words above it. */
  ghost function Rows(m: seq<word>, a: nat, n: nat, k: nat): int
    requires k <= n && a + n <= |m|
  {
    if k == 0 then 0 else Rows(m, a, n, k - 1) + Shl(2 * (k - 1) + 1, RowTerm(m, a, n, k - 1))
  }

  /** Word i times the words above it. */
  ghost function RowTerm(m: seq<word>, a: nat, n: nat, i: nat): int
    requires i < n && a + n <= |m|
  {
    Num(m, a + i + 1, n - i - 1) * m[a + i]
  }

  lemma RowTermSame(m: seq<word>, m': seq<word>, a: nat, n: nat, i: nat)
    requires i < n && |m| == |m'| && a + n <= |m| && forall k | a <= k < a + n :: m[k] == m'[k]
    ensures RowTerm(m, a, n, i) == RowTerm(m', a, n, i)
    ensures RowTerm(m, a, n, n - 1) == 0
  {
    NumSame(m, a + i + 1, m', a + i + 1, n - i - 1);
    NumNil(m, a + n);
  }

  /** A square is its diagonal plus twice the rows above the diagonal. */
  lemma {:induction false} SquareOfRows(m: seq<word>, a: nat, n: nat, k: nat)
    requires k <= n && a + n <= |m|
    ensures Num(m, a, n) * Num(m, a, n)
         == 2 * Rows(m, a, n, k) + Squares(m, a, k) + Shl(2 * k, Num(m, a + k, n - k) * Num(m, a + k, n - k))
  {
    hide Num, Shl;
    if k == 0 {
      ShlWord(Num(m, a, n) * Num(m, a, n));
    } else {
      SquareOfRows(m, a, n, k - 1);
      NumFront(m, a + k - 1, n - k + 1);
      var x: int, t := m[a + k - 1], Num(m, a + k, n - k);
      SquareOfFront(k - 1, x, t);
    }
  }

  lemma SquareOfFront(i: nat, x: int, t: int)
    ensures Shl(2 * i, (x + BASE * t) * (x + BASE * t))
         == 2 * Shl(2 * i + 1, t * x) + Shl(2 * i, x * x) + Shl(2 * (i + 1), t * t)
  {
    hide Shl;
    FourProducts(x, BASE * t, x, BASE * t);
    MulAssoc(BASE, t, x);
    MulAssoc(BASE, t, BASE * t);
    assert (x + BASE * t) * (x + BASE * t) == x * x + BASE * (2 * (t * x) + BASE * (t * t));
    ShlColumn(2 * i, x * x, 2 * (t * x) + BASE * (t * t));
    ShlColumn(2 * i + 1, 2 * (t * x), t * t);
    ShlAdd(2 * i + 1, t * x, t * x);
  }

  /** bn_sqr_words: the square of every word, two result words each. */
  method SqrWords(mem: array<word>, r: nat, a: nat, n: nat)
    requires r + 2 * n <= mem.Length && a + n <= mem.Length && Apart(r, 2 * n, a, n)
    modifies mem
    ensures Outside(old(mem[..]), mem[..], r, r + 2 * n)
    ensures Num(mem[..], r, 2 * n) == Squares(old(mem[..]), a, n)
  {
    hide Num, Shl;
    ghost var m0 := mem[..];
    NumNil(m0, r);
    for i := 0 to n
      invariant Outside(m0, mem[..], r, r + 2 * i)
      invariant Num(mem[..], r, 2 * i) == Squares(m0, a, i)
    {
      ghost var m1 := mem[..];
      var x: int := mem[a + i];
      WordProduct(x, x);
      var t := x * x;
      mem[r + 2 * i] := t % BASE;
      mem[r + 2 * i + 1] := t / BASE;
      NumSame(m1, r, mem[..], r, 2 * i);
      NumSnoc(mem[..], r, 2 * i);
      NumSnoc(mem[..], r, 2 * i + 1);
      ShlColumn(2 * i, t % BASE, t / BASE);
    }
  }

  /** bn_sqr_normal: rows above the diagonal, doubled, plus the diagonal. */
  method SqrNormal(mem: array<word>, r: nat, a: nat, n: nat, tmp: nat)
    requires 0 < n && r + 2 * n <= mem.Length && tmp + 2 * n <= mem.Length && a + n <= mem.Length
    requires Apart(r, 2 * n, a, n) && Apart(tmp, 2 * n, a, n) && Apart(r, 2 * n, tmp, 2 * n)
    modifies mem
    ensures Outside2(old(mem[..]), mem[..], r, 2 * n, tmp, 2 * n)
    ensures Num(mem[..], r, 2 * n) == old(Num(mem[..], a, n)) * old(Num(mem[..], a, n))
  {
    hide Num, Shl, Rows, Squares;
    ghost var m0 := mem[..];
    SqrRows(mem, r, a, n);
    ghost var m1 := mem[..];
    ghost var rows, diagonal := Rows(m0, a, n, n), Squares(m0, a, n);
    SquareFits(m0, a, n);
    var c := AddWords(mem, r, r, r, 2 * n);
    ghost var m2 := mem[..];
    NoCarry(2 * n, Num(m2, r, 2 * n), c, 2 * rows);
    SquaresSame(m0, m2, a, n);
    SqrWords(mem, tmp, a, n);
    ghost var m3 := mem[..];
    NumSame(m2, r, m3, r, 2 * n);
    c := AddWords(mem, r, r, tmp, 2 * n);
    NoCarry(2 * n, Num(mem[..], r, 2 * n), c, 2 * rows + diagonal);
  }

  lemma NoCarry(n: nat, low: nat, c: nat, sum: int)
    requires low + Shl(n, c) == sum < BPow(n)
    ensures c == 0 && low == sum
  {
    hide Shl;
    ShlZero(n);
    ShlLess(n, c, 1);
    ShlLess(n, 0, c);
  }

  lemma {:induction false} SquaresSame(m: seq<word>, m': seq<word>, a: nat, n: nat)
    requires |m| == |m'| && a + n <= |m| && forall i | a <= i < a + n :: m[i] == m'[i]
    ensures Squares(m, a, n) == Squares(m', a, n)
  {
    hide Shl;
    if n > 0 { SquaresSame(m, m', a, n - 1); }
  }

  lemma {:induction false} SquaresNat(m: seq<word>, a: nat, n: nat)
    requires a + n <= |m|
    ensures 0 <= Squares(m, a, n)
  {
    hide Shl;
    if n > 0 {
      SquaresNat(m, a, n - 1);
      var x: int := m[a + n - 1];
      WordProduct(x, x);
      ShlNat(2 * (n - 1), x * x);
    }
  }

  lemma {:induction false} RowsNat(m: seq<word>, a: nat, n: nat, k: nat)
    requires k <= n && a + n <= |m|
    ensures 0 <= Rows(m, a, n, k)
  {
    hide Shl, Num;
    if k > 0 {
      RowsNat(m, a, n, k - 1);
      MulLe(0, Num(m, a + k, n - k), m[a + k - 1]);
      ShlNat(2 * (k - 1) + 1, RowTerm(m, a, n, k - 1));
    }
  }

  lemma SquareFits(m: seq<word>, a: nat, n: nat)
    requires a + n <= |m|
    ensures Num(m, a, n) * Num(m, a, n) == 2 * Rows(m, a, n, n) + Squares(m, a, n) < BPow(2 * n)
    ensures 0 <= Rows(m, a, n, n) && 0 <= Squares(m, a, n)
  {
    hide Num, Shl, Rows, Squares;
    SquareOfRows(m, a, n, n);
    NumNil(m, a + n);
    ShlZero(2 * n);
    RowsNat(m, a, n, n);
    SquaresNat(m, a, n);
    NumBound(m, a, n);
    ProductBound(n, Num(m, a, n), Num(m, a, n));
  }

  /** The triangular part of bn_sqr_normal: r := sum of the rows above the diagonal. */
  method SqrRows(mem: array<word>, r: nat, a: nat, n: nat)
    requires 0 < n && r + 2 * n <= mem.Length && a + n <= mem.Length && Apart(r, 2 * n, a, n)
    modifies mem
    ensures Outside(old(mem[..]), mem[..], r, r + 2 * n)
    ensures Num(mem[..], r, 2 * n) == Rows(old(mem[..]), a, n, n)
  {
    hide Num, Shl, Rows, RowTerm;
    ghost var m0 := mem[..];
    mem[r], mem[r + 2 * n - 1] := 0, 0;
    RowsStep(m0, a, n, 0);
    RowsStep(m0, a, n, n - 1);
    RowTermSame(m0, mem[..], a, n, 0);
    ShlZero(2 * (n - 1) + 1);
    NumZeros(mem[..], r, 1);
    var i := 0;
    if n > 1 {
      FirstSqrRow(mem, r, a, n);
      i := 1;
    }
    while i < n - 1
      invariant 0 <= i < n && (n > 1 ==> i >= 1)
      invariant Outside(m0, mem[..], r, r + 2 * n) && mem[r + 2 * n - 1] == 0
      invariant Num(mem[..], r, n + i) == Rows(m0, a, n, i)
    {
      RowTermSame(m0, mem[..], a, n, i);
      RowsStep(m0, a, n, i);
      SqrRow(mem, r, a, n, i);
      i := i + 1;
    }
    NumSnoc(mem[..], r, 2 * n - 1);
    ShlZero(2 * n - 1);
  }

  lemma RowsStep(m: seq<word>, a: nat, n: nat, k: nat)
    requires k < n && a + n <= |m|
    ensures Rows(m, a, n, 0) == 0
    ensures Rows(m, a, n, k + 1) == Rows(m, a, n, k) + Shl(2 * k + 1, RowTerm(m, a, n, k))
  {
  }

  method FirstSqrRow(mem: array<word>, r: nat, a: nat, n: nat)
    requires 1 < n && r + 2 * n <= mem.Length && a + n <= mem.Length && Apart(r, 2 * n, a, n)
    requires mem[r] == 0
    modifies mem
    ensures Outside(old(mem[..]), mem[..], r + 1, r + n + 1)
    ensures Num(mem[..], r, n + 1) == Shl(1, RowTerm(old(mem[..]), a, n, 0))
  {
    hide Num, Shl;
    var c := MulWords(mem, r + 1, a + 1, n - 1, mem[a]);
    ghost var m2 := mem[..];
    mem[r + n] := c;
    NumSame(m2, r + 1, mem[..], r + 1, n - 1);
    NumSplit(mem[..], r, 1, n);
    NumSnoc(mem[..], r + 1, n - 1);
    NumZeros(mem[..], r, 1);
  }

  /** One row of bn_sqr_normal: word i times the words above it, added at word 2i + 1. */
  method SqrRow(mem: array<word>, r: nat, a: nat, n: nat, i: nat)
    requires i < n - 1 && r + 2 * n <= mem.Length && a + n <= mem.Length && Apart(r, 2 * n, a, n)
    modifies mem
    ensures Outside(old(mem[..]), mem[..], r + 2 * i + 1, r + n + i + 1)
    ensures Num(mem[..], r, n + i + 1)
         == old(Num(mem[..], r, n + i)) + Shl(2 * i + 1, RowTerm(old(mem[..]), a, n, i))
  {
    hide Num, Shl;
    ghost var m1 := mem[..];
    var j := n - 1 - i;
    var c := MulAddWords(mem, r + 2 * i + 1, a + i + 1, j, mem[a + i]);
    ghost var m2 := mem[..];
    mem[r + n + i] := c;
    NumSame(m2, r + 2 * i + 1, mem[..], r + 2 * i + 1, j);
    NumSame(m1, r, mem[..], r, 2 * i + 1);
    Row(m1, mem[..], r, 2 * i + 1, j, Num(m1, a + i + 1, j) * m1[a + i]);
  }

  /** bn_sqr_recursive: Karatsuba with both operands equal, so the middle product is a square
      that is always subtracted. */
  method SqrRecursive(mem: array<word>, r: nat, a: nat, n2: nat, t: nat)
    requires PowerOfTwo(n2)
    requires r + 2 * n2 <= mem.Length && t + 4 * n2 <= mem.Length && a + n2 <= mem.Length
    requires Apart(r, 2 * n2, t, 4 * n2) && Apart(r, 2 * n2, a, n2) && Apart(t, 4 * n2, a, n2)
    modifies mem
    ensures Outside2(old(mem[..]), mem[..], r, 2 * n2, t, 4 * n2)
    ensures Num(mem[..], r, 2 * n2) == old(Num(mem[..], a, n2)) * old(Num(mem[..], a, n2))
    decreases n2, 0
  {
    hide Num, Shl;
    if n2 == 4 || n2 == 8 || n2 < RECURSIVE_SIZE {
      SqrNormal(mem, r, a, n2, t);
      return;
    }
    SqrSplit(mem, r, a, n2 / 2, t);
  }

  /** The recursive case of bn_sqr_recursive, on an operand of 2n words. */
  method SqrSplit(mem: array<word>, r: nat, a: nat, n: nat, t: nat)
    requires 0 < n && PowerOfTwo(n)
    requires r + 4 * n <= mem.Length && t + 8 * n <= mem.Length && a + 2 * n <= mem.Length
    requires Apart(r, 4 * n, t, 8 * n) && Apart(r, 4 * n, a, 2 * n) && Apart(t, 8 * n, a, 2 * n)
    modifies mem
    ensures Outside2(old(mem[..]), mem[..], r, 4 * n, t, 8 * n)
    ensures Num(mem[..], r, 4 * n) == old(Num(mem[..], a, 2 * n)) * old(Num(mem[..], a, 2 * n))
    decreases n, 2
  {
    hide Num, Shl, PowerOfTwo, Outside, Outside2, Apart;
    ghost var m0 := mem[..];
    ScratchApart(r, a, n, t);
    var zero := Difference(mem, a, n, t);
    ghost var m1 := mem[..];
    MiddleSquare(mem, n, t, zero);
    ghost var m2 := mem[..];
    ScratchWrites(m0, m1, m2, a, n, t);
    OuterSquares(mem, r, a, n, t + 4 * n);
    ghost var m3 := mem[..];
    Untouched(m2, m3, r, 4 * n, t + 4 * n, 4 * n, t + 2 * n, 2 * n);
    SquareSign(Num(m0, a, n), Num(m0, a + n, n));
    Assemble(m0, m3, r, a, a, n, t, true);
    Combine(mem, r, n, t, true, Num(m0, a, n) * Num(m0, a + n, n) + Num(m0, a + n, n) * Num(m0, a, n));
    AllWrites(m0, m2, m3, mem[..], r, n, t);
  }

  lemma SquareSign(x: int, y: int)
    ensures (x - y) * (y - x) == -((x - y) * (x - y))
    ensures (y - x) * (y - x) == (x - y) * (x - y)
  {
    Signs(x - y, x - y);
  }

  /** t[0..n) := |a0 - a1|, unless the halves are equal. */
  method Difference(mem: array<word>, a: nat, n: nat, t: nat) returns (zero: bool)
    requires t + 2 * n <= mem.Length && a + 2 * n <= mem.Length && Apart(t, 2 * n, a, 2 * n)
    modifies mem
    ensures Outside(old(mem[..]), mem[..], t, t + 2 * n)
    ensures var d := old(Num(mem[..], a, n) - Num(mem[..], a + n, n));
            if zero then d * d == 0 else Num(mem[..], t, n) * Num(mem[..], t, n) == d * d
  {
    hide Num, Shl;
    ghost var m0 := mem[..];
    var c1 := CmpWords(mem, a, a + n, n);
    zero := false;
    SquareSign(Num(m0, a, n), Num(m0, a + n, n));
    if c1 > 0 {
      Subtract(mem, t, a, a + n, n);
    } else if c1 < 0 {
      Subtract(mem, t, a + n, a, n);
    } else {
      zero := true;
    }
  }

  method MiddleSquare(mem: array<word>, n: nat, t: nat, zero: bool)
    requires PowerOfTwo(n) && t + 8 * n <= mem.Length
    modifies mem
    ensures Outside(old(mem[..]), mem[..], t + 2 * n, t + 8 * n)
    ensures Num(mem[..], t + 2 * n, 2 * n) == if zero then 0 else old(Num(mem[..], t, n)) * old(Num(mem[..], t, n))
    decreases n, 1
  {
    hide Num, Shl, PowerOfTwo;
    if zero {
      ClearWords(mem, t + 2 * n, 2 * n);
    } else {
      SqrRecursive(mem, t + 2 * n, t, n, t + 4 * n);
    }
  }

  method OuterSquares(mem: array<word>, r: nat, a: nat, n: nat, t: nat)
    requires PowerOfTwo(n)
    requires r + 4 * n <= mem.Length && t + 4 * n <= mem.Length && a + 2 * n <= mem.Length
    requires Apart(r, 4 * n, t, 4 * n) && Apart(r, 4 * n, a, 2 * n) && Apart(t, 4 * n, a, 2 * n)
    modifies mem
    ensures Outside2(old(mem[..]), mem[..], r, 4 * n, t, 4 * n)
    ensures Num(mem[..], r, 2 * n) == old(Num(mem[..], a, n)) * old(Num(mem[..], a, n))
    ensures Num(mem[..], r + 2 * n, 2 * n) == old(Num(mem[..], a + n, n)) * old(Num(mem[..], a + n, n))
    decreases n, 1
  {
    hide Num, Shl, PowerOfTwo, Outside2, Apart;
    ghost var m0 := mem[..];
    OuterApart(r, a, n, t);
    SqrRecursive(mem, r, a, n, t);
    ghost var m1 := mem[..];
    Untouched(m0, m1, r, 2 * n, t, 4 * n, a + n, n);
    SqrRecursive(mem, r + 2 * n, a + n, n, t);
    Untouched(m1, mem[..], r + 2 * n, 2 * n, t, 4 * n, r, 2 * n);
    TwoWrites(m0, m1, mem[..], r, n, t);
  }
}
