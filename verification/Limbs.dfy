/** Little-endian sequences of 32-bit words and the integers they stand for
    (openssl/opensslconf.h selects THIRTY_TWO_BIT and BN_LLONG). */
module Limbs {
  import opened Arith

  const BASE: int := 0x1_0000_0000
  const BITS2: nat := 32

  type word = x: int | 0 <= x < BASE

  /** The number held in the n words of memory m that start at p, least significant first. */
  function Num(m: seq<word>, p: nat, n: nat): (v: nat)
    requires p + n <= |m|
  {
    if n == 0 then 0 else
      ShlNat(n - 1, m[p + n - 1]);
      Num(m, p, n - 1) + Shl(n - 1, m[p + n - 1])
  }

  /** The number a whole sequence stands for. */
  function Val(s: seq<word>): nat
  {
    Num(s, 0, |s|)
  }

  /** x shifted left by n words, that is x * BASE^n. */
  function Shl(n: nat, x: int): int
  {
    if n == 0 then x else BASE * Shl(n - 1, x)
  }

  lemma {:induction false} ShlAdd(n: nat, x: int, y: int)
    ensures Shl(n, x + y) == Shl(n, x) + Shl(n, y)
    ensures Shl(n, x - y) == Shl(n, x) - Shl(n, y)
  {
    if n > 0 { ShlAdd(n - 1, x, y); }
  }

  lemma {:induction false} ShlShl(m: nat, n: nat, x: int)
    ensures Shl(m, Shl(n, x)) == Shl(m + n, x)
  {
    if m > 0 { ShlShl(m - 1, n, x); }
  }

  lemma {:induction false} ShlLess(n: nat, x: int, y: int)
    ensures x < y <==> Shl(n, x) < Shl(n, y)
    ensures x == y <==> Shl(n, x) == Shl(n, y)
  {
    if n > 0 { ShlLess(n - 1, x, y); }
  }

  lemma {:induction false} ShlNat(n: nat, x: int)
    requires 0 <= x
    ensures x <= Shl(n, x)
  {
    if n > 0 { ShlNat(n - 1, x); }
  }

  lemma {:induction false} ShlZero(n: nat)
    ensures Shl(n, 0) == 0
  {
    if n > 0 { ShlZero(n - 1); }
  }

  lemma {:induction false} ShlMul(n: nat, x: int, w: int)
    ensures Shl(n, x * w) == Shl(n, x) * w
  {
    if n > 0 {
      ShlMul(n - 1, x, w);
      MulAssoc(BASE, Shl(n - 1, x), w);
    }
  }

  /** A column value split into a word and a carry. */
  lemma ShlColumn(n: nat, lo: int, hi: int)
    ensures Shl(n, lo + BASE * hi) == Shl(n, lo) + Shl(n + 1, hi)
  {
    ShlAdd(n, lo, BASE * hi);
    ShlShl(n, 1, hi);
    assert Shl(1, hi) == BASE * Shl(0, hi);
  }

  function BPow(n: nat): (p: nat)
    ensures 1 <= p
  {
    ShlLess(n, 0, 1);
    ShlZero(n);
    Shl(n, 1)
  }

  lemma BPowNext(n: nat)
    ensures BPow(n + 1) == BASE * BPow(n) && BPow(0) == 1
  {
  }

  lemma {:induction false} ShlIsMul(n: nat, x: int)
    ensures Shl(n, x) == BPow(n) * x
  {
    if n > 0 {
      ShlIsMul(n - 1, x);
      MulAssoc(BASE, BPow(n - 1), x);
    }
  }

  lemma {:induction false} BPowAdd(m: nat, n: nat)
    ensures BPow(m + n) == BPow(m) * BPow(n)
  {
    if m > 0 {
      BPowAdd(m - 1, n);
      MulAssoc(BASE, BPow(m - 1), BPow(n));
    }
  }

  lemma {:induction false} BPowMono(m: nat, n: nat)
    requires m <= n
    ensures BPow(m) <= BPow(n)
  {
    if m < n { BPowMono(m, n - 1); }
  }

  lemma {:induction false} BPowPow2(n: nat)
    ensures BPow(n) == Pow2(BITS2 * n)
  {
    if n > 0 {
      BPowPow2(n - 1);
      Pow2Small();
      Pow2Add(BITS2, BITS2 * (n - 1));
    }
  }

  // ---------- numbers in memory ----------

  /** A number depends on its own words only. */
  lemma {:induction false} NumSame(m: seq<word>, p: nat, m': seq<word>, p': nat, n: nat)
    requires p + n <= |m| && p' + n <= |m'|
    requires forall i | p <= i < p + n :: m[i] == m'[p' + i - p]
    ensures Num(m, p, n) == Num(m', p', n)
  {
    if n > 0 { NumSame(m, p, m', p', n - 1); }
  }

  lemma NumSnoc(m: seq<word>, p: nat, n: nat)
    requires p + n < |m|
    ensures Num(m, p, n + 1) == Num(m, p, n) + Shl(n, m[p + n])
  {
  }

  lemma NumNil(m: seq<word>, p: nat)
    requires p <= |m|
    ensures Num(m, p, 0) == 0
  {
  }

  lemma {:induction false} NumSplit(m: seq<word>, p: nat, k: nat, n: nat)
    requires p + k + n <= |m|
    ensures Num(m, p, k + n) == Num(m, p, k) + Shl(k, Num(m, p + k, n))
  {
    hide Shl;
    if n == 0 {
      ShlZero(k);
    } else {
      NumSplit(m, p, k, n - 1);
      ShlAdd(k, Num(m, p + k, n - 1), Shl(n - 1, m[p + k + n - 1]));
      ShlShl(k, n - 1, m[p + k + n - 1]);
    }
  }

  lemma NumFront(m: seq<word>, p: nat, n: nat)
    requires 0 < n && p + n <= |m|
    ensures Num(m, p, n) == m[p] + BASE * Num(m, p + 1, n - 1)
  {
    NumSplit(m, p, 1, n - 1);
    assert Num(m, p, 1) == Num(m, p, 0) + Shl(0, m[p]);
  }

  lemma {:induction false} NumBound(m: seq<word>, p: nat, n: nat)
    requires p + n <= |m|
    ensures Num(m, p, n) < BPow(n)
  {
    if n > 0 {
      NumBound(m, p, n - 1);
      var x: int := m[p + n - 1];
      ShlColumn(n - 1, 0, 1);
      ShlZero(n - 1);
      ShlLess(n - 1, x + 1, BASE);
      ShlAdd(n - 1, x, 1);
      ShlShl(n - 1, 1, 1);
    }
  }

  /** Changing word k of a number changes it by that word's weight. */
  lemma NumUpdate(m: seq<word>, m': seq<word>, p: nat, n: nat, k: nat)
    requires k < n && p + n <= |m| == |m'|
    requires forall i | p <= i < p + n && i != p + k :: m[i] == m'[i]
    ensures Num(m', p, n) + Shl(k, m[p + k]) == Num(m, p, n) + Shl(k, m'[p + k])
  {
    hide Num, Shl;
    NumSplit(m, p, k + 1, n - k - 1);
    NumSplit(m', p, k + 1, n - k - 1);
    NumSnoc(m, p, k);
    NumSnoc(m', p, k);
    NumSame(m, p, m', p, k);
    NumSame(m, p + k + 1, m', p + k + 1, n - k - 1);
  }

  lemma {:induction false} NumZeros(m: seq<word>, p: nat, n: nat)
    requires p + n <= |m|
    requires forall i | p <= i < p + n :: m[i] == 0
    ensures Num(m, p, n) == 0
  {
    if n > 0 {
      NumZeros(m, p, n - 1);
      ShlZero(n - 1);
    }
  }

  /** Words are determined by the value, for a given length. */
  lemma {:induction false} NumInjective(m: seq<word>, p: nat, m': seq<word>, p': nat, n: nat)
    requires p + n <= |m| && p' + n <= |m'| && Num(m, p, n) == Num(m', p', n)
    ensures forall i | p <= i < p + n :: m[i] == m'[p' + i - p]
    decreases n
  {
    hide Num, Shl;
    if n > 0 {
      NumFront(m, p, n);
      NumFront(m', p', n);
      NumInjective(m, p + 1, m', p' + 1, n - 1);
    }
  }

  lemma ValSlice(m: seq<word>, p: nat, n: nat)
    requires p + n <= |m|
    ensures Val(m[p..p + n]) == Num(m, p, n)
  {
    NumSame(m, p, m[p..p + n], 0, n);
  }

  // ---------- leading zeros ----------

  /** No leading zero word: the state in which bn_fix_top leaves a number. */
  predicate Fixed(s: seq<word>)
  {
    s == [] || s[|s| - 1] != 0
  }

  lemma FixedBound(s: seq<word>)
    requires Fixed(s) && s != []
    ensures BPow(|s| - 1) <= Val(s) < BPow(|s|)
  {
    var n := |s| - 1;
    ShlLess(n, s[n], 1);
    NumBound(s, 0, n + 1);
  }

  /** A number without leading zeros has as many words as its size asks for. */
  lemma FixedLength(s: seq<word>, n: nat)
    requires Fixed(s)
    ensures Val(s) < BPow(n) <==> |s| <= n
    ensures Val(s) == 0 <==> s == []
  {
    if s != [] {
      FixedBound(s);
      if |s| <= n { BPowMono(|s|, n); } else { BPowMono(n, |s| - 1); }
    }
  }

  /** bn_fix_top (openssl/bn.h:466): drop zero words from the top. */
  method FixTop(s: seq<word>) returns (t: seq<word>)
    ensures Fixed(t) && Val(t) == Val(s) && t <= s
  {
    var top := |s|;
    while top > 0 && s[top - 1] == 0
      invariant 0 <= top <= |s|
      invariant Num(s, 0, top) == Val(s)
    {
      top := top - 1;
      ShlZero(top);
    }
    t := s[..top];
    ValSlice(s, 0, top);
  }

  // ---------- memory ----------

  /** The words of m0 and m1 agree outside the window [lo, hi). */
  ghost predicate Outside(m0: seq<word>, m1: seq<word>, lo: int, hi: int)
  {
    |m0| == |m1| && forall i | 0 <= i < |m0| && !(lo <= i < hi) :: m0[i] == m1[i]
  }

  lemma NumOutside(m0: seq<word>, m1: seq<word>, lo: int, hi: int, p: nat, n: nat)
    requires Outside(m0, m1, lo, hi)
    requires p + n <= |m0| && (p + n <= lo || hi <= p)
    ensures Num(m0, p, n) == Num(m1, p, n)
  {
    NumSame(m0, p, m1, p, n);
  }
}
