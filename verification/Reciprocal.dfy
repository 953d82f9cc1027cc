/** Division by multiplication with a cached reciprocal: bn_recp.c. */
module Reciprocal {
  import opened Arith
  import opened Limbs
  import opened BigNum
  import opened Shift
  import opened Product
  import opened Divide

  class RecpCtx {
    var N: bignum
    var Nr: bignum
    var num_bits: nat
    var shift: int

    /** The cached Nr belongs to the cached shift; -1 records a failed division by N = 0. */
    ghost predicate Valid()
      reads this
    {
      && BitLength(Mag(N), num_bits) && -1 <= shift
      && (shift == -1 ==> Mag(N) == 0) && (shift == 0 ==> Mag(Nr) == 0)
      && (shift > 0 ==> IsReciprocal(Mag(Nr), shift, Mag(N)))
    }

    constructor ()
      ensures Valid() && N == Zero() && shift == 0
    {
      N, Nr, num_bits, shift := Zero(), Zero(), 0, 0;
      new;
      NumNil([], 0);
    }

    /** BN_RECP_CTX_set. */
    method Set(d: bignum)
      modifies this
      ensures Valid() && N == d && shift == 0
    {
      N, Nr := d, Zero();
      NumNil([], 0);
      num_bits := NumBits(d);
      shift := 0;
    }

    /** BN_div_recp: the same truncating division as BN_div, whatever the cache holds. */
    method DivRecp(m: bignum) returns (ok: bool, d: bignum, r: bignum)
      requires Valid()
      modifies this
      ensures Valid() && N == old(N)
      ensures ok <==> Mag(N) > 0
      ensures ok ==> Divides(m, N, d, r)
    {
      hide Num, Shl, Pow2, Shr, Fixed, BitLength, IsReciprocal, Divides;
      var c := UCmp(m, N);
      if c < 0 {
        ShortDividend(m, N);
        return true, Zero(), m;
      }
      var i := Refresh(m);
      if shift == -1 { return false, Zero(), Zero(); }
      d, r := Estimate(m, i);
      ok, d, r := Correct(m, d, r);
      if ok {
        r := r.(neg := !IsZero(r) && m.neg);
        d := d.(neg := m.neg != N.neg);
        ZeroMag(r);
        LongDividend(m, N, d, r);
      }
    }

    /** Bring the cached reciprocal to the precision that m needs. */
    method Refresh(m: bignum) returns (i: nat)
      requires Valid()
      modifies this
      ensures Valid() && N == old(N) && num_bits == old(num_bits)
      ensures shift != -1 ==> shift == i && 2 * num_bits <= i && Mag(m) < Pow2(i)
      ensures Mag(N) > 0 ==> 0 < shift
    {
      hide Num, Shl, Pow2, Shr, Fixed, BitLength, IsReciprocal;
      i := NumBits(m);
      EmptyBits(Mag(N), num_bits);
      BelowPower(Mag(m), i, if 2 * num_bits > i then 2 * num_bits else i);
      EmptyBits(Mag(m), i);
      if 2 * num_bits > i { i := 2 * num_bits; }
      if i != shift {
        Nr, shift := FindReciprocal(Nr, N, i);
      }
    }

    /** The first quotient and remainder. */
    method Estimate(m: bignum, i: nat) returns (d: bignum, r: bignum)
      requires Valid() && shift == i && 2 * num_bits <= i && Mag(m) < Pow2(i)
      requires Mag(N) > 0 ==> 0 < i
      ensures !d.neg && Mag(m) == Mag(d) * Mag(N) + Mag(r)
      ensures Mag(N) > 0 ==> Mag(r) < 4 * Mag(N)
    {
      hide Num, Shl, Pow2, Shr, Fixed, BitLength, IsReciprocal;
      var a := RShift(m, num_bits);
      var b := Mul(a, Nr);
      d := RShift(b, i - num_bits);
      d := d.(neg := false);
      if Mag(N) > 0 {
        QuotientEstimate(Mag(m), Mag(N), num_bits, i, Mag(Nr));
      } else {
        MulZero(Mag(d));
      }
      b := Mul(N, d);
      r := USub(m, b);
    }

    /** The correction loop; a fourth correction would be the BAD_RECIPROCAL error. */
    method Correct(m: bignum, d0: bignum, r0: bignum) returns (ok: bool, d: bignum, r: bignum)
      requires !d0.neg && Mag(m) == Mag(d0) * Mag(N) + Mag(r0)
      requires Mag(N) > 0 ==> Mag(r0) < 4 * Mag(N)
      ensures ok <==> Mag(N) > 0
      ensures ok ==> Mag(m) == Mag(d) * Mag(N) + Mag(r) && Mag(r) < Mag(N)
    {
      hide Num, Shl, Fixed;
      d, r := d0, r0;
      var j := 0;
      var c := UCmp(r, N);
      while c >= 0
        invariant 0 <= j <= 3 && !d.neg
        invariant c < 0 <==> Mag(r) < Mag(N)
        invariant Mag(m) == Mag(d) * Mag(N) + Mag(r)
        invariant Mag(N) > 0 ==> Mag(r) < (4 - j) * Mag(N)
        decreases 3 - j
      {
        if j > 2 { return false, d, r; }
        j := j + 1;
        ghost var q: int := Mag(d);
        r := USub(r, N);
        d := AddWord(d, 1);
        Distribute(Mag(N), q, 1);
        c := UCmp(r, N);
      }
      ok := true;
    }
  }

  ghost predicate IsReciprocal(x: nat, e: nat, n: nat)
  {
    0 < n && x * n <= Pow2(e) < x * n + n
  }

  /** BN_reciprocal: 2^len / m and len, or -1. */
  method FindReciprocal(r0: bignum, m: bignum, len: nat) returns (r: bignum, e: int)
    ensures if Mag(m) == 0 then r == r0 && e == -1 else e == len && IsReciprocal(Mag(r), len, Mag(m))
  {
    hide Num, Shl, Pow2, Fixed;
    r := r0;
    var t := SetBit(len);
    var ok, q, rm := Div(t, m);
    ZeroMag(m);
    if !ok { return r, -1; }
    return q, len;
  }

  lemma ShortDividend(m: bignum, n: bignum)
    requires Mag(m) < Mag(n)
    ensures Divides(m, n, Zero(), m)
  {
    NumNil([], 0);
    MulZero(Mag(n));
  }

  lemma LongDividend(m: bignum, n: bignum, d: bignum, r: bignum)
    requires Mag(n) <= Mag(m) == Mag(d) * Mag(n) + Mag(r) && Mag(r) < Mag(n)
    requires r.neg == (Mag(r) != 0 && m.neg) && d.neg == (m.neg != n.neg)
    ensures Divides(m, n, d, r)
  {
  }

  lemma EmptyBits(x: nat, k: nat)
    requires BitLength(x, k)
    ensures k == 0 <==> x == 0
  {
  }

  lemma BelowPower(x: nat, k: nat, i: nat)
    requires BitLength(x, k) && k <= i
    ensures x < Pow2(i)
  {
    Pow2Mono(k, i);
  }

  /** The estimate is never too large, and too small by less than four. */
  lemma QuotientEstimate(m: nat, N: nat, nb: nat, i: nat, Nr: nat)
    requires 0 < N && BitLength(N, nb) && m < Pow2(i) && 2 * nb <= i && IsReciprocal(Nr, i, N)
    ensures var d := Shr(Shr(m, nb) * Nr, i - nb); N * d <= m < N * d + 4 * N
  {
    hide Pow2, Shr, BitLength;
    var P, S, T := Pow2(nb), Pow2(i - nb), Pow2(i);
    var a := Shr(m, nb);
    ShrParts(m, nb);
    MulLe(0, a, Nr);
    ShrParts(a * Nr, i - nb);
    Pow2Add(nb, i - nb);
    TopBit(N, nb);
    EstimateBound(m, N, P, S, T, Nr, a, m - P * a, T - Nr * N, Shr(a * Nr, i - nb), a * Nr - S * Shr(a * Nr, i - nb));
  }

  lemma ShrParts(x: nat, n: nat)
    ensures 0 <= x - Pow2(n) * Shr(x, n) < Pow2(n)
  {
    var p := Pow2(n);
    assert x == p * (x / p) + x % p;
  }

  lemma TopBit(N: nat, nb: nat)
    requires 0 < N && BitLength(N, nb)
    ensures Pow2(nb) <= 2 * N
  {
  }

  lemma EstimateBound(m: int, N: int, P: int, S: int, T: int, Nr: int, a: int, u: int, v: int, d: int, w: int)
    requires 0 < N && 0 < P <= 2 * N && 0 < S && T == P * S && 0 <= m < T && 0 <= a
    requires m == P * a + u && 0 <= u < P
    requires T == Nr * N + v && 0 <= v < N
    requires a * Nr == S * d + w && 0 <= w < S
    ensures 0 <= m - N * d < 4 * N
  {
    // (m - N d) T = u T + (P a) v + w (N P)
    var e := m - N * d;
    EstimateError(m, N, P, S, T, Nr, a, u, v, d, w);
    MulLt(u, P, T);
    MulLe(P, 2 * N, T);
    MulLe(P * a, m, v);
    MulLe(v, N, m);
    MulLt(m, T, N);
    MulLt(w, S, N * P);
    MulAssoc(N, P, S);
    MulLe(0, u, T);
    MulLe(0, P * a, v);
    MulLe(0, w, N * P);
    if e < 0 { MulLe(e, -1, T); }
    if e >= 4 * N { MulLe(4 * N, e, T); MulAssoc(4, N, T); MulAssoc(2, N, T); }
  }

  lemma EstimateError(m: int, N: int, P: int, S: int, T: int, Nr: int, a: int, u: int, v: int, d: int, w: int)
    requires T == P * S && m == P * a + u && T == Nr * N + v && a * Nr == S * d + w
    ensures (m - N * d) * T == u * T + (P * a) * v + w * (N * P)
  {
    var Pa, NP := P * a, N * P;
    calc {
      (N * d) * T;
      { Shuffle(N, d, P, S); }
      NP * (d * S);
      { Distribute(NP, a * Nr, -w); }
      NP * (a * Nr) + NP * -w;
      { Shuffle(N, P, Nr, a); }
      (N * Nr) * Pa + NP * -w;
      { Distribute(Pa, T, -v); }
      Pa * T + Pa * -v + NP * -w;
    }
    Distribute(T, Pa, u);
    Distribute(T, m, -(N * d));
    Signs(Pa, v);
    Signs(NP, w);
    Signs(N * d, T);
  }

}
