/** Bits and shifts: the bit routines of bn_lib.c and all of bn_shift.c. */
module Shift {
  import opened Arith
  import opened Limbs
  import opened BigNum

  /** k is the length of x in bits. */
  ghost predicate BitLength(x: nat, k: nat)
  {
    if x == 0 then k == 0 else k > 0 && Pow2(k - 1) <= x < Pow2(k)
  }

  lemma BitLengthUp(x: int, s: nat, q: int, r: int, k: nat)
    requires x == Pow2(s) * q + r && 0 <= r < Pow2(s)
    requires k > 0 && Pow2(k - 1) <= q < Pow2(k)
    ensures Pow2(s + k - 1) <= x < Pow2(s + k)
  {
    hide Pow2;
    Pow2Add(s, k - 1);
    Pow2Add(s, k);
    MulLe(Pow2(k - 1), q, Pow2(s));
    MulLe(q + 1, Pow2(k), Pow2(s));
    Distribute(Pow2(s), q, 1);
  }

  /** The 256-entry table of BN_num_bits_word. */
  function ByteBits(x: int): (k: nat)
    requires 0 <= x < 0x100
    ensures BitLength(x, k)
  {
    ByteBitsTable();
    if x >= 128 then 8 else if x >= 64 then 7 else if x >= 32 then 6 else if x >= 16 then 5
    else if x >= 8 then 4 else if x >= 4 then 3 else if x >= 2 then 2 else if x >= 1 then 1 else 0
  }

  lemma ByteBitsTable()
    ensures Pow2(0) == 1 && Pow2(1) == 2 && Pow2(2) == 4 && Pow2(3) == 8 && Pow2(4) == 16
    ensures Pow2(5) == 32 && Pow2(6) == 64 && Pow2(7) == 128 && Pow2(8) == 256
    ensures Pow2(16) == 0x1_0000 && Pow2(24) == 0x100_0000
  {
    Pow2Small();
    Pow2Add(16, 8);
  }

  /** BN_num_bits_word. */
  method NumBitsWord(l: word) returns (k: nat)
    ensures BitLength(l, k) && k <= BITS2
  {
    hide Pow2;
    ByteBitsTable();
    if l >= 0x1_0000 {
      if l >= 0x100_0000 {
        k := 24 + ByteBits(l / 0x100_0000);
        BitLengthUp(l, 24, l / 0x100_0000, l % 0x100_0000, k - 24);
      } else {
        k := 16 + ByteBits(l / 0x1_0000);
        BitLengthUp(l, 16, l / 0x1_0000, l % 0x1_0000, k - 16);
      }
    } else if l >= 0x100 {
      k := 8 + ByteBits(l / 0x100);
      BitLengthUp(l, 8, l / 0x100, l % 0x100, k - 8);
    } else {
      k := ByteBits(l);
    }
  }

  /** BN_num_bits. */
  method NumBits(a: bignum) returns (k: nat)
    ensures BitLength(Mag(a), k)
    ensures k <= BITS2 * |a.d| && (a.d != [] ==> BITS2 * (|a.d| - 1) < k)
  {
    hide Num, Shl;
    ZeroMag(a);
    if |a.d| == 0 { return 0; }
    var n := |a.d| - 1;
    var w := NumBitsWord(a.d[n]);
    k := n * BITS2 + w;
    NumSnoc(a.d, 0, n);
    NumBound(a.d, 0, n);
    ShlIsMul(n, a.d[n]);
    BPowPow2(n);
    BitLengthUp(Mag(a), BITS2 * n, a.d[n], Num(a.d, 0, n), w);
  }

  /** BN_is_bit_set; bits beyond the top, and negative positions, are clear. */
  method IsBitSet(a: bignum, n: int) returns (r: bool)
    ensures n < 0 ==> !r
    ensures 0 <= n ==> r == (Shr(Mag(a), n) % 2 == 1)
  {
    hide Num, Shl;
    if n < 0 { return false; }
    var i, j := n / BITS2, n % BITS2;
    BPowPow2(i);
    Pow2Add(BITS2 * i, j);
    if |a.d| <= i {
      FixedLength(a.d, i);
      Pow2Mono(BITS2 * i, n);
      ShrUnique(Mag(a), n, 0, Mag(a));
      return false;
    }
    r := (a.d[i] / Pow2(j)) % 2 == 1;
    // |a| = low + 2^(32 i) * (d[i] + 2^32 * rest)
    NumSplit(a.d, 0, i, |a.d| - i);
    NumFront(a.d, i, |a.d| - i);
    NumBound(a.d, 0, i);
    ghost var rest := Num(a.d, i + 1, |a.d| - i - 1);
    ShlIsMul(i, Num(a.d, i, |a.d| - i));
    ShrUnique(Mag(a), BITS2 * i, Num(a.d, i, |a.d| - i), Num(a.d, 0, i));
    ShrShr(Mag(a), BITS2 * i, j);
    HighWords(a.d[i], rest, j);
  }

  /** Words above the lowest do not affect its bits. */
  lemma HighWords(x: nat, rest: nat, j: nat)
    requires j < BITS2
    ensures Shr(x + BASE * rest, j) % 2 == Shr(x, j) % 2
  {
    Pow2Small();
    Pow2Add(j + 1, BITS2 - j - 1);
    MulAssoc(Pow2(j + 1), Pow2(BITS2 - j - 1), rest);
    MulLe(0, rest, Pow2(BITS2 - j - 1));
    BitOfSum(x, Pow2(BITS2 - j - 1) * rest, j);
  }

  /** BN_zero followed by BN_set_bit: the number 2^n. */
  method SetBit(n: nat) returns (r: bignum)
    ensures Mag(r) == Pow2(n) && !r.neg
  {
    hide Num, Shl, Pow2;
    var i, j := n / BITS2, n % BITS2;
    Pow2Small();
    Pow2Mono(j, 31);
    var d := new word[i + 1](_ => 0);
    d[i] := Pow2(j);
    NumZeros(d[..], 0, i);
    NumSnoc(d[..], 0, i);
    ShlIsMul(i, Pow2(j));
    BPowPow2(i);
    Pow2Add(BITS2 * i, j);
    r := Store(d, 0, i + 1, false);
  }

  // ---------- shifts by one ----------

  /** BN_lshift1. */
  method LShift1(a: bignum) returns (r: bignum)
    ensures Mag(r) == 2 * Mag(a) && r.neg == a.neg
  {
    hide Num, Shl;
    var top := |a.d|;
    var d := new word[top + 1](_ => 0);
    var c: word := 0;
    NumNil(a.d, 0);
    NumNil(d[..], 0);
    ShlZero(0);
    for i := 0 to top
      invariant c <= 1
      invariant Num(d[..], 0, i) + Shl(i, c) == 2 * Num(a.d, 0, i)
    {
      ghost var m1 := d[..];
      var t: int := a.d[i];
      var x := (t * 2) % BASE + c;
      ghost var c0 := c;
      c := if t >= 0x8000_0000 then 1 else 0;
      d[i] := x;
      NumSame(m1, 0, d[..], 0, i);
      NumSnoc(d[..], 0, i);
      NumSnoc(a.d, 0, i);
      ShlColumn(i, x, c);
      ShlAdd(i, t, t);
      ShlAdd(i, t + t, c0);
    }
    ghost var m1 := d[..];
    d[top] := c;
    NumSame(m1, 0, d[..], 0, top);
    NumSnoc(d[..], 0, top);
    r := Store(d, 0, top + 1, a.neg);
  }

  /** BN_rshift1. */
  method RShift1(a: bignum) returns (r: bignum)
    ensures Mag(r) == Mag(a) / 2 && (r.neg ==> a.neg)
  {
    hide Num, Shl, Fixed;
    ZeroMag(a);
    if |a.d| == 0 { return BN([], false); }
    var top := |a.d|;
    var d := new word[top](_ => 0);
    var c := 0;
    var i := top;
    NumNil(a.d, top);
    NumNil(d[..], top);
    while i > 0
      invariant 0 <= i <= top && (c == 0 || c == 0x8000_0000)
      invariant Num(a.d, i, top - i) == 2 * Num(d[..], i, top - i) + (if c != 0 then 1 else 0)
    {
      ghost var m1 := d[..];
      i := i - 1;
      var t := a.d[i];
      ghost var c0 := c;
      d[i] := t / 2 + c;
      c := if t % 2 == 1 then 0x8000_0000 else 0;
      NumSame(m1, i + 1, d[..], i + 1, top - i - 1);
      NumFront(d[..], i, top - i);
      NumFront(a.d, i, top - i);
      HalfColumn(t, t / 2, c0, c, d[i], Num(a.d, i + 1, top - i - 1), Num(d[..], i + 1, top - i - 1));
    }
    r := Store(d, 0, top, a.neg);
  }

  /** Halving one word, with the bit from the word above and the bit for the word below. */
  lemma HalfColumn(t: int, h: int, c0: int, c: int, x: int, a: int, d: int)
    requires x == h + c0 && (c0 == 0 || c0 == 0x8000_0000) && (c == 0 || c == 0x8000_0000)
    requires t == 2 * h + (if c != 0 then 1 else 0) && a == 2 * d + (if c0 != 0 then 1 else 0)
    ensures t + BASE * a == 2 * (x + BASE * d) + (if c != 0 then 1 else 0)
  {
  }

  // ---------- general shifts ----------

  /** One word of a left shift: what stays and what moves into the next word. */
  lemma SplitWord(l: int, lb: nat)
    requires 0 <= l < BASE && 0 < lb < BITS2
    ensures var rb := BITS2 - lb;
            && 0 <= l / Pow2(rb) < Pow2(lb)
            && (l * Pow2(lb)) % BASE == Pow2(lb) * (l % Pow2(rb))
            && l * Pow2(lb) == BASE * (l / Pow2(rb)) + Pow2(lb) * (l % Pow2(rb))
            && 0 <= Pow2(lb) * (l % Pow2(rb)) <= BASE - Pow2(lb)
  {
    hide Pow2;
    var rb := BITS2 - lb;
    var P, R := Pow2(lb), Pow2(rb);
    Pow2Small();
    Pow2Add(rb, lb);
    SplitProduct(l, R, P, l / R, l % R);
    DivBound(l, R, P);
    DivModUnique(l * P, BASE, l / R, P * (l % R));
  }

  lemma SplitProduct(l: int, R: int, P: int, q: int, k: int)
    requires l == R * q + k && 0 <= k < R && 0 < P && R * P == BASE
    ensures l * P == BASE * q + P * k && 0 <= P * k <= BASE - P
  {
    Distribute(P, R * q, k);
    MulAssoc(P, R, q);
    MulLe(k + 1, R, P);
    Distribute(P, k, 1);
    MulLe(0, k, P);
  }

  /** BN_lshift. */
  method LShift(a: bignum, n: nat) returns (r: bignum)
    ensures Mag(r) == Mag(a) * Pow2(n) && r.neg == a.neg
  {
    hide Num, Shl;
    var nw, lb := n / BITS2, n % BITS2;
    var top := |a.d|;
    var t := new word[top + nw + 1](_ => 0);
    if lb == 0 {
      var i := top;
      while i > 0
        invariant 0 <= i <= top
        invariant forall k | i <= k < top :: t[nw + k] == a.d[k]
        invariant forall k | 0 <= k < nw :: t[k] == 0
        invariant t[nw + top] == 0
      {
        i := i - 1;
        t[nw + i] := a.d[i];
      }
      NumSame(a.d, 0, t[..], nw, top);
      NumSnoc(t[..], nw, top);
      ShlZero(top);
      assert Pow2(0) == 1;
    } else {
      ShiftUp(t, a, nw, lb);
    }
    NumSplit(t[..], 0, nw, top + 1);
    NumZeros(t[..], 0, nw);
    ShlIsMul(nw, Mag(a) * Pow2(lb));
    BPowPow2(nw);
    Pow2Add(BITS2 * nw, lb);
    Regroup(Mag(a), Pow2(lb), BPow(nw));
    r := Store(t, 0, top + nw + 1, a.neg);
  }

  lemma Regroup(a: int, p: int, b: int)
    ensures b * (a * p) == a * (b * p)
  {
    MulAssoc(b, a, p);
    MulAssoc(a, b, p);
  }

  method ShiftUp(t: array<word>, a: bignum, nw: nat, lb: nat)
    requires 0 < lb < BITS2 && t.Length == |a.d| + nw + 1
    requires forall k | 0 <= k < t.Length :: t[k] == 0
    modifies t
    ensures forall k | 0 <= k < nw :: t[k] == 0
    ensures Num(t[..], nw, |a.d| + 1) == Mag(a) * Pow2(lb)
  {
    hide Num, Shl, Pow2;
    var top, rb := |a.d|, BITS2 - lb;
    var i := top;
    NumNil(a.d, top);
    NumZeros(t[..], nw + top, 1);
    Pow2Mono(lb, BITS2);
    Pow2Small();
    while i > 0
      invariant 0 <= i <= top
      invariant forall k | 0 <= k < nw :: t[k] == 0
      invariant t[nw + i] <= BASE - Pow2(lb)
      invariant Num(t[..], nw + i, top - i + 1) == Num(a.d, i, top - i) * Pow2(lb)
    {
      ghost var m1 := t[..];
      i := i - 1;
      var l: int := a.d[i];
      SplitWord(l, lb);
      var hi := l / Pow2(rb);
      t[nw + i + 1] := t[nw + i + 1] + hi;   // an `or` of disjoint bits in the source
      t[nw + i] := (l * Pow2(lb)) % BASE;
      NumFront(m1, nw + i + 1, top - i);
      NumFront(t[..], nw + i + 1, top - i);
      NumSame(m1, nw + i + 2, t[..], nw + i + 2, top - i - 1);
      NumFront(t[..], nw + i, top - i + 1);
      NumFront(a.d, i, top - i);
      Distribute(Pow2(lb), l, BASE * Num(a.d, i + 1, top - i - 1));
      MulAssoc(BASE, Num(a.d, i + 1, top - i - 1), Pow2(lb));
    }
  }

  /** BN_rshift. */
  method RShift(a: bignum, n: nat) returns (r: bignum)
    ensures Mag(r) == Shr(Mag(a), n) && (r.neg ==> a.neg)
  {
    hide Num, Shl;
    var nw, rb := n / BITS2, n % BITS2;
    BPowPow2(nw);
    if nw >= |a.d| {
      FixedLength(a.d, nw);
      Pow2Mono(BITS2 * nw, n);
      ShrUnique(Mag(a), n, 0, Mag(a));
      NumNil([], 0);
      return BN([], nw == |a.d| && a.d != [] && a.neg);
    }
    var j := |a.d| - nw;
    NumSplit(a.d, 0, nw, j);
    NumBound(a.d, 0, nw);
    ShlIsMul(nw, Num(a.d, nw, j));
    ShrUnique(Mag(a), BITS2 * nw, Num(a.d, nw, j), Num(a.d, 0, nw));
    ShrShr(Mag(a), BITS2 * nw, rb);
    var t := new word[j](_ => 0);
    if rb == 0 {
      for i := 0 to j
        invariant forall k | 0 <= k < i :: t[k] == a.d[nw + k]
      {
        t[i] := a.d[nw + i];
      }
      NumSame(t[..], 0, a.d, nw, j);
      ShrZero(Num(a.d, nw, j));
    } else {
      ShiftDown(t, a, nw, rb);
    }
    r := Store(t, 0, j, a.neg);
  }

  method ShiftDown(t: array<word>, a: bignum, nw: nat, rb: nat)
    requires 0 < rb < BITS2 && nw < |a.d| && t.Length == |a.d| - nw
    modifies t
    ensures Num(t[..], 0, t.Length) == Shr(Num(a.d, nw, t.Length), rb)
  {
    hide Num, Shl;
    var j, lb := t.Length, BITS2 - rb;
    var R := Pow2(rb);
    var l: int := a.d[nw];
    ghost var low := l % R;
    NumNil(t[..], 0);
    NumNil(a.d, nw);
    NumSnoc(a.d, nw, 0);
    ShlColumn(0, l, 0);
    ShlWordZero(l, R);
    var i := 1;
    while i < j
      invariant 1 <= i <= j && l == a.d[nw + i - 1]
      invariant Num(a.d, nw, i) == R * (Num(t[..], 0, i - 1) + Shl(i - 1, l / R)) + low
    {
      ghost var m1 := t[..];
      ghost var l0 := l;
      var tmp := l / R;
      l := a.d[nw + i];
      SplitWord(l0, lb);
      SplitWord(l, lb);
      var lo := (l * Pow2(lb)) % BASE;
      t[i - 1] := tmp + lo;
      NumSame(m1, 0, t[..], 0, i - 1);
      NumSnoc(t[..], 0, i - 1);
      NumSnoc(a.d, nw, i);
      DownColumn(i - 1, rb, l, lo, l / R, tmp, Num(t[..], 0, i - 1));
      i := i + 1;
    }
    SplitWord(l, lb);
    ghost var m1 := t[..];
    t[j - 1] := l / R;
    NumSame(m1, 0, t[..], 0, j - 1);
    NumSnoc(t[..], 0, j - 1);
    ShrUnique(Num(a.d, nw, j), rb, Num(t[..], 0, j), low);
  }

  lemma ShlWordZero(l: int, R: int)
    requires 0 < R
    ensures Shl(0, l) == l && Shl(0, l / R) == l / R
  {
  }

  lemma ShiftedColumn(i: nat, R: int, P: int, l: int, lo: int, hi: int)
    requires R * P == BASE && l * P == BASE * hi + lo
    ensures Shl(i + 1, l) == R * (Shl(i, lo) + Shl(i + 1, hi))
  {
    hide Shl;
    ShlColumn(i, 0, l);
    ShlZero(i);
    MulAssoc(l, P, R);
    ShlMul(i, l * P, R);
    ShlColumn(i, lo, hi);
  }

  lemma DownColumn(i: nat, rb: nat, l: int, lo: int, hi: int, tmp: int, t: int)
    requires 0 < rb < BITS2 && l * Pow2(BITS2 - rb) == BASE * hi + lo
    ensures Pow2(rb) * (t + Shl(i, tmp)) + Shl(i + 1, l) == Pow2(rb) * (t + Shl(i, tmp + lo) + Shl(i + 1, hi))
  {
    hide Shl, Pow2;
    var R, P := Pow2(rb), Pow2(BITS2 - rb);
    Pow2Small();
    Pow2Add(rb, BITS2 - rb);
    ShiftedColumn(i, R, P, l, lo, hi);
    ShlAdd(i, tmp, lo);
    var x, y := t + Shl(i, tmp), Shl(i, lo) + Shl(i + 1, hi);
    Distribute(R, x, y);
  }
}
