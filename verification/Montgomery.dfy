/** Montgomery reduction: bn_mont.c. */
module Montgomery {
  import opened Arith
  import opened Limbs
  import opened Words
  import opened BigNum
  import opened Shift
  import opened Product
  import opened Divide
  import opened Inverse

  // ---------- reduction of a word array ----------

  /** One round of the word loop of BN_from_montgomery: add the multiple of N that clears word i,
      and ripple the carry through the words above it. */
  method ReduceWord(mem: array<word>, i: nat, k: nat, np: nat, nl: nat, n0: word) returns (w: word)
    requires 0 < nl < k && i + k <= np && np + nl <= mem.Length
    requires (n0 * mem[np] + 1) % BASE == 0
    requires Num(mem[..], i, k) + Num(mem[..], np, nl) * (BASE - 1) < BPow(k)
    modifies mem
    ensures Outside(old(mem[..]), mem[..], i, i + k)
    ensures mem[i] == 0 && Num(mem[..], i, k) == old(Num(mem[..], i, k)) + old(Num(mem[..], np, nl)) * w
  {
    hide Num, Shl;
    ghost var m0 := mem[..];
    ghost var N := Num(m0, np, nl);
    w := (mem[i] * n0) % BASE;
    NumSplit(m0, i, nl, k - nl);
    var v := MulAddWords(mem, i, np, nl, w);
    ghost var m1 := mem[..];
    NumOutside(m0, m1, i, i + nl, i + nl, k - nl);
    MulLe(w, BASE - 1, N);
    ShlAdd(nl, Num(m0, i + nl, k - nl), v);
    NumShort(nl, k, Num(m1, i, nl), Num(m1, i + nl, k - nl) + v);
    RippleAdd(mem, i + nl, k - nl, v);
    NumOutside(m1, mem[..], i + nl, i + k, i, nl);
    NumSplit(mem[..], i, nl, k - nl);
    ClearedWord(m0, mem[..], i, k, np, nl, n0, w);
  }

  lemma NumShort(nl: nat, k: nat, low: nat, high: nat)
    requires nl < k && low + Shl(nl, high) < BPow(k)
    ensures high < BPow(k - nl)
  {
    hide Shl;
    ShlShl(nl, k - nl, 1);
    ShlLess(nl, high, BPow(k - nl));
  }

  lemma ClearedWord(m0: seq<word>, m: seq<word>, i: nat, k: nat, np: nat, nl: nat, n0: word, w: word)
    requires 0 < nl < k && i + k <= np && np + nl <= |m0| == |m|
    requires (n0 * m0[np] + 1) % BASE == 0 && w == (m0[i] * n0) % BASE
    requires Num(m, i, k) == Num(m0, i, k) + Num(m0, np, nl) * w
    ensures m[i] == 0
  {
    hide Num;
    NumFront(m0, i, k);
    NumFront(m, i, k);
    NumFront(m0, np, nl);
    var x: int, y: int, h, N := m0[i], m0[np], Num(m0, np + 1, nl - 1), Num(m0, np, nl);
    var c := LowWord(x, y, n0, w);
    Distribute(w, y, BASE * h);
    MulAssoc(BASE, h, w);
    SmallMultiple(m[i], c + h * w + Num(m0, i + 1, k - 1) - Num(m, i + 1, k - 1));
  }

  lemma SmallMultiple(z: word, q: int)
    requires z == BASE * q
    ensures z == 0
  {
  }

  lemma LowWord(x: int, y: int, n0: int, w: int) returns (c: int)
    requires (n0 * y + 1) % BASE == 0 && w == (x * n0) % BASE
    ensures x + y * w == BASE * c
  {
    var q, t := (x * n0) / BASE, (n0 * y + 1) / BASE;
    c := x * t - y * q;
    LowWordSum(x, y, n0, w, q, t);
  }

  lemma LowWordSum(x: int, y: int, n0: int, w: int, q: int, t: int)
    requires x * n0 == BASE * q + w && n0 * y == BASE * t - 1
    ensures x + y * w == BASE * (x * t - y * q)
  {
    calc {
      y * w;
      { Distribute(y, x * n0, -BASE * q); }
      y * (x * n0) + y * (-BASE * q);
      { MulAssoc(x, n0, y); MulAssoc(y, -BASE, q); MulAssoc(-BASE, y, q); }
      x * (n0 * y) - BASE * (y * q);
      { Distribute(x, BASE * t, -1); MulAssoc(x, BASE, t); MulAssoc(BASE, x, t); }
      BASE * (x * t) - x - BASE * (y * q);
    }
  }

  /** The word loop.  The window of 2 nl + 1 words never overflows. */
  method ReduceWords(mem: array<word>, nl: nat, n0: word) returns (ghost Q: nat)
    requires 0 < nl && mem.Length == 3 * nl + 1
    requires (n0 * mem[2 * nl + 1] + 1) % BASE == 0 && Num(mem[..], 0, 2 * nl + 1) < BPow(2 * nl)
    modifies mem
    ensures Q < BPow(nl)
    ensures Shl(nl, Num(mem[..], nl, nl + 1))
         == old(Num(mem[..], 0, 2 * nl + 1)) + old(Num(mem[..], 2 * nl + 1, nl)) * Q
  {
    hide Num, Shl, Outside;
    ghost var m0 := mem[..];
    ghost var a, N := Num(m0, 0, 2 * nl + 1), Num(m0, 2 * nl + 1, nl);
    OutsideNothing(m0, 2 * nl + 1);
    NumBound(m0, 2 * nl + 1, nl);
    var i := 0;
    Q := 0;
    ShlIsMul(0, a);
    BPowNext(0);
    while i < nl
      invariant 0 <= i <= nl && Q < BPow(i)
      invariant Outside(m0, mem[..], 0, 2 * nl + 1)
      invariant Shl(i, Num(mem[..], i, 2 * nl + 1 - i)) == a + N * Q
    {
      ghost var m1 := mem[..];
      ghost var T := Num(m1, i, 2 * nl + 1 - i);
      Unchanged(m0, m1, 2 * nl + 1, nl);
      RoundFits(i, nl, T, a, N, Q);
      var w := ReduceWord(mem, i, 2 * nl + 1 - i, 2 * nl + 1, nl, n0);
      OutsideMore(m0, m1, mem[..], i, 2 * nl + 1);
      NumFront(mem[..], i, 2 * nl + 1 - i);
      RoundSum(i, T, Num(mem[..], i + 1, 2 * nl - i), a, N, Q, w);
      Q := Q + Shl(i, w);
      i := i + 1;
    }
  }

  lemma Unchanged(m0: seq<word>, m1: seq<word>, p: nat, n: nat)
    requires 0 < n && p + n <= |m0| && Outside(m0, m1, 0, p)
    ensures |m1| == |m0| && m1[p] == m0[p] && Num(m1, p, n) == Num(m0, p, n)
  {
    NumOutside(m0, m1, 0, p, p, n);
  }

  lemma OutsideNothing(m: seq<word>, p: nat)
    ensures Outside(m, m, 0, p)
  {
  }

  lemma OutsideMore(m0: seq<word>, m1: seq<word>, m2: seq<word>, i: nat, p: nat)
    requires Outside(m0, m1, 0, p) && Outside(m1, m2, i, p)
    ensures Outside(m0, m2, 0, p)
  {
  }

  lemma RoundFits(i: nat, nl: nat, T: int, a: nat, N: nat, Q: nat)
    requires i < nl && Shl(i, T) == a + N * Q && Q < BPow(i) && a < BPow(2 * nl) && N < BPow(nl)
    ensures T + N * (BASE - 1) < BPow(2 * nl + 1 - i)
  {
    hide Shl;
    ShlAdd(i, T, N * (BASE - 1));
    ShlMul(i, BASE - 1, N);
    ShlIsMul(i, BASE - 1);
    // a + N * (Q + (BASE - 1) * BPow(i)) < BPow(2 nl) + N * BPow(i + 1)
    Distribute(N, Q, BPow(i) * (BASE - 1));
    BPowNext(i);
    MulLe(Q + BPow(i) * (BASE - 1), BPow(i + 1), N);
    BPowMono(i + 1, nl);
    MulLe(N, BPow(nl), BPow(i + 1));
    MulLe(BPow(i + 1), BPow(nl), BPow(nl));
    BPowAdd(nl, nl);
    BPowNext(2 * nl);
    ShlShl(i, 2 * nl + 1 - i, 1);
    ShlLess(i, T + N * (BASE - 1), BPow(2 * nl + 1 - i));
  }

  lemma RoundSum(i: nat, T: int, T': int, a: int, N: int, Q: int, w: int)
    requires Shl(i, T) == a + N * Q && BASE * T' == T + N * w && 0 <= w < BASE && 0 <= Q < BPow(i)
    ensures Shl(i + 1, T') == a + N * (Q + Shl(i, w)) && 0 <= Q + Shl(i, w) < BPow(i + 1)
  {
    hide Shl;
    ShlColumn(i, 0, T');
    ShlZero(i);
    ShlAdd(i, T, N * w);
    ShlMul(i, w, N);
    Distribute(N, Q, Shl(i, w));
    ShlNat(i, w);
    ShlIsMul(i, w);
    MulLe(w, BASE - 1, BPow(i));
    BPowNext(i);
  }

  // ---------- the meaning of the result ----------

  /** r is the Montgomery reduction of a: a / 2^e modulo N. */
  ghost predicate IsRedc(r: int, a: int, e: nat, N: int)
  {
    0 < N && 0 <= r < N && Cong(r * Pow2(e), a, N)
  }

  /** For odd N there is at most one. */
  lemma RedcUnique(r: int, s: int, a: int, e: nat, N: int)
    requires N % 2 == 1 && IsRedc(r, a, e, N) && IsRedc(s, a, e, N)
    ensures r == s
  {
    hide Pow2;
    CancelShift(r, s, e, N);
    CongRange(r, s, N);
    CongRange(r, r, N);
  }

  /** x stands for the residue v in a computation on Montgomery forms. */
  ghost predicate Stands(x: int, v: int, e: nat, N: int)
  {
    0 < N && Cong(x, v * Pow2(e), N)
  }

  /** Reducing a product of two forms gives the form of the product. */
  lemma StandsProduct(x: int, u: int, y: int, v: int, r: int, e: nat, N: int)
    requires 0 < N && N % 2 == 1 && Stands(x, u, e, N) && Stands(y, v, e, N) && Cong(r * Pow2(e), x * y, N)
    ensures Stands(r, u * v, e, N)
  {
    hide Pow2, Cong;
    var p, w := Pow2(e), u * v;
    CongMul(x, u * p, y, v * p, N);
    FormProduct(u, v, p);
    CancelForms(r, w * p, x * y, e, N);
  }

  lemma CancelForms(r: int, w: int, a: int, e: nat, N: int)
    requires 0 < N && N % 2 == 1 && Cong(r * Pow2(e), a, N) && Cong(a, Pow2(e) * w, N)
    ensures Cong(r, w, N)
  {
    hide Pow2, Cong;
    CongTrans(r * Pow2(e), a, Pow2(e) * w, N);
    CancelShift(r, w, e, N);
  }

  lemma FormProduct(u: int, v: int, p: int)
    ensures (u * p) * (v * p) == p * ((u * v) * p)
  {
    Shuffle(u, p, v, p);
    MulAssoc(u * v, p, p);
  }

  // ---------- BN_MONT_CTX ----------

  class MontCtx {
    var ri: nat
    var RR: bignum
    var N: bignum
    var n0: word

    constructor ()
      ensures ri == 0 && RR == Zero() && N == Zero()
    {
      ri, RR, N, n0 := 0, Zero(), Zero(), 0;
    }

    ghost predicate Valid()
      reads this
    {
      && Mag(N) % 2 == 1 && !N.neg && N.d != []
      && ri == BITS2 * |N.d| && (n0 * N.d[0] + 1) % BASE == 0
      && IsResidue(RR, Pow2(2 * ri), Mag(N))
    }

    /** BN_MONT_CTX_set: succeeds exactly for odd moduli. */
    method Set(mod: bignum) returns (ok: bool)
      requires mod.d != []
      modifies this
      ensures ok <==> Mag(mod) % 2 == 1
      ensures ok ==> Valid() && Mag(N) == Mag(mod)
    {
      hide Num, Shl, Pow2, Cong;
      N := mod.(neg := false);
      var bits := NumBits(mod);
      ri := (bits + (BITS2 - 1)) / BITS2 * BITS2;
      OddMag(mod);
      ok, n0 := WordInverse(mod.d[0]);
      if ok {
        RR := SetBit(ri * 2);
        var dv;
        ok, dv, RR := Div(RR, N);
        SmallResidue(Pow2(2 * ri), N, dv, RR);
      }
    }

    /** BN_from_montgomery.  Any a of at most twice the length of N is reduced to something
        congruent; below N * 2^ri the result is the Montgomery reduction itself. */
    method FromMontgomery(a: bignum) returns (r: bignum)
      requires Valid() && |a.d| <= 2 * |N.d|
      ensures Cong(Mag(r) * Pow2(ri), Mag(a), Mag(N)) && (!a.neg ==> !r.neg)
      ensures Mag(a) < Mag(N) * Pow2(ri) ==> IsRedc(Mag(r), Mag(a), ri, Mag(N))
    {
      hide Num, Shl, Pow2, Cong, Fixed;
      var nl := |N.d|;
      WordsBound(a, 2 * nl);
      var mem := ReductionWords(a, N.d);
      var Q := ReduceWords(mem, nl, n0);
      r := Store(mem, nl, nl + 1, a.neg);
      ReductionMeaning(nl, Mag(r), Mag(a), Mag(N), Q);
      var c := UCmp(r, N);
      if c >= 0 {
        r := USub(r, N);
      }
    }

    /** BN_mod_mul_montgomery. */
    method MulMontgomery(a: bignum, b: bignum) returns (r: bignum)
      requires Valid() && Mag(a) * Mag(b) < Mag(N) * Pow2(ri)
      ensures IsRedc(Mag(r), Mag(a) * Mag(b), ri, Mag(N))
      ensures !a.neg && !b.neg ==> !r.neg
    {
      hide Num, Shl, Pow2, Cong, Fixed;
      var tmp;
      if a == b {
        tmp := Sqr(a);
      } else {
        tmp := Mul(a, b);
      }
      ProductLength(tmp, N);
      r := FromMontgomery(tmp);
    }

    /** The product of two reduced forms. */
    method MulForms(a: bignum, b: bignum, ghost u: int, ghost v: int) returns (r: bignum)
      requires Valid() && Mag(a) < Mag(N) && Mag(b) < Mag(N) && !a.neg && !b.neg
      requires Stands(Mag(a), u, ri, Mag(N)) && Stands(Mag(b), v, ri, Mag(N))
      ensures Stands(Mag(r), u * v, ri, Mag(N)) && Mag(r) < Mag(N) && !r.neg
    {
      hide Num, Shl, Pow2, Cong, Fixed;
      ReducedProduct(Mag(a), Mag(b), N);
      r := MulMontgomery(a, b);
      StandsProduct(Mag(a), u, Mag(b), v, Mag(r), ri, Mag(N));
    }

    /** BN_to_montgomery: multiplication by RR.  The argument need not be reduced. */
    method ToMontgomery(a: bignum) returns (r: bignum)
      requires Valid() && Mag(a) < Pow2(ri) && !a.neg
      ensures Stands(Mag(r), Mag(a), ri, Mag(N)) && Mag(r) < Mag(N) && !r.neg
    {
      hide Num, Shl, Pow2, Cong, Fixed;
      MulLe(Mag(RR), Mag(N), Mag(a));
      MulLt(Mag(a), Pow2(ri), Mag(N));
      r := MulMontgomery(a, RR);
      IntoForm(Mag(r), Mag(a), Mag(RR), ri, Mag(N));
    }

    /** BN_from_montgomery of a form gives back the residue it stands for. */
    method OutOfForm(a: bignum, ghost v: int) returns (r: bignum)
      requires Valid() && Mag(a) < Mag(N) && !a.neg && Stands(Mag(a), v, ri, Mag(N))
      ensures !r.neg && Mag(r) == v % Mag(N)
    {
      hide Num, Shl, Pow2, Cong, Fixed;
      ReducedProduct(Mag(a), 1, N);
      FormLength(a, N);
      r := FromMontgomery(a);
      CancelForm(Mag(r), v, Mag(a), ri, Mag(N));
    }
  }

  ghost predicate IsResidue(r: bignum, x: int, n: int)
  {
    0 < n && !r.neg && Mag(r) < n && Cong(Mag(r), x, n)
  }

  lemma SmallResidue(x: nat, n: bignum, dv: bignum, rm: bignum)
    requires Mag(n) > 0
    ensures forall a: bignum | !a.neg && Mag(a) == x && Divides(a, n, dv, rm) :: IsResidue(rm, x, Mag(n))
  {
    forall a: bignum | !a.neg && Mag(a) == x && Divides(a, n, dv, rm)
      ensures IsResidue(rm, x, Mag(n))
    {
      ModResidue(a, n, dv, rm);
    }
  }

  /** The part of BN_MONT_CTX_set that finds n0 with n0 * t = -1 modulo the word size. */
  method WordInverse(t: word) returns (ok: bool, n0: word)
    ensures ok <==> t % 2 == 1
    ensures ok ==> (n0 * t + 1) % BASE == 0
  {
    hide Num, Shl, Pow2, Cong, Fixed, Coprime;
    var R := SetBit(BITS2);
    var tmod := SetWord(t);
    var Ri;
    n0 := 0;
    ok, Ri := ModInverse(R, tmod);
    CoprimeToBase(t);
    if ok {
      Pow2Small();
      var x := LShift(Ri, BITS2);
      InverseOfOne(Mag(Ri), t);
      ZeroMag(x);
      if !IsZero(x) {
        x := SubWord(x, 1);
      } else {
        x := SetWord(BASE - 1);
      }
      var b, dv, rm := Div(x, tmod);
      n0 := if |dv.d| > 0 then dv.d[0] else 0;
      ExactQuotient(x, tmod, dv, rm, if t == 1 then 1 else Mag(Ri), n0);
    }
  }

  lemma ExactQuotient(x: bignum, tmod: bignum, dv: bignum, rm: bignum, z: int, n0: int)
    requires 0 <= Int(x) == BASE * z - 1 && !tmod.neg && Divides(x, tmod, dv, rm)
    requires 0 < Mag(tmod) && Cong(BASE * z, 1, Mag(tmod))
    requires n0 == if |dv.d| > 0 then dv.d[0] else 0
    ensures (n0 * Mag(tmod) + 1) % BASE == 0
  {
    hide Num, Fixed, Cong;
    var t := Mag(tmod);
    NonnegQuotient(x, tmod, dv, rm);
    ExactRemainder(Mag(x), z, t, Mag(dv), Mag(rm));
    var rest := LowWordOf(dv, n0);
    QuotientWord(Mag(dv), t, z, n0, rest);
  }

  lemma ExactRemainder(x: int, z: int, t: int, q: int, r: int)
    requires x == BASE * z - 1 && 0 < t && Cong(BASE * z, 1, t) && x == q * t + r && 0 <= r < t
    ensures r == 0
  {
    hide Cong;
    SameIsCong(1, t);
    CongAdd(BASE * z, 1, 1, 1, t);
    CongIntro(x, r, t, q);
    CongRange(x, r, t);
    CongRange(x, 0, t);
  }

  /** Only the low word of the quotient matters modulo the word size. */
  lemma QuotientWord(q: int, t: int, z: int, n0: int, rest: int)
    requires q * t == BASE * z - 1 && q == n0 + BASE * rest
    ensures (n0 * t + 1) % BASE == 0
  {
    Distribute(t, n0, BASE * rest);
    MulAssoc(BASE, rest, t);
    WordMultiple(n0 * t + 1, z - rest * t);
  }

  lemma WordMultiple(x: int, k: int)
    requires x == BASE * k
    ensures x % BASE == 0
  {
  }

  lemma LowWordOf(dv: bignum, n0: int) returns (rest: int)
    requires n0 == if |dv.d| > 0 then dv.d[0] else 0
    ensures Mag(dv) == n0 + BASE * rest
  {
    if dv.d == [] {
      NumNil(dv.d, 0);
      rest := 0;
    } else {
      NumFront(dv.d, 0, |dv.d|);
      rest := Num(dv.d, 1, |dv.d| - 1);
    }
  }

  lemma CoprimeToBase(t: word)
    ensures 0 < t && Coprime(Pow2(BITS2), t) <==> t % 2 == 1
  {
    hide Pow2;
    Pow2Small();
    if t % 2 == 1 {
      forall k | Dvd(k, Pow2(BITS2)) && Dvd(k, t)
        ensures k == 1
      {
        DvdOdd(k, t);
        DvdHalf(k, BITS2, 1);
        DvdOne(k);
      }
    } else {
      CongIntro(Pow2(BITS2), 0, 2, 0x8000_0000);
      CongIntro(t, 0, 2, t / 2);
      assert Dvd(2, Pow2(BITS2)) && Dvd(2, t);
    }
  }

  lemma InverseOfOne(ri: nat, t: int)
    requires 0 < t && ri < t && Cong(BASE * ri, 1, t)
    ensures ri == 0 <==> t == 1
    ensures t == 1 ==> Cong(BASE * 1, 1, t)
  {
    if ri == 0 && t > 1 {
      CongRange(0, 1, t);
      CongRange(0, 0, t);
    }
  }

  // ---------- sizes and residues ----------

  /** The words of a, cleared up to 2 nl + 1 words, followed by those of N. */
  method ReductionWords(a: bignum, nd: seq<word>) returns (mem: array<word>)
    requires |a.d| <= 2 * |nd|
    ensures fresh(mem) && mem.Length == 3 * |nd| + 1
    ensures Num(mem[..], 0, 2 * |nd| + 1) == Mag(a) && Num(mem[..], 2 * |nd| + 1, |nd|) == Val(nd)
    ensures nd != [] ==> mem[2 * |nd| + 1] == nd[0]
  {
    hide Num, Shl, Fixed;
    var al, max := |a.d|, 2 * |nd| + 1;
    var pad: seq<word> := a.d + seq(max - al, _ => 0);
    mem := Layout(0, pad, nd);
    NumSplit(pad, 0, al, max - al);
    NumSame(pad, 0, a.d, 0, al);
    NumZeros(pad, al, max - al);
    ShlZero(al);
  }

  lemma ReductionMeaning(nl: nat, x: int, a: int, N: int, Q: int)
    requires 0 < N && 0 <= Q && Shl(nl, x) == a + N * Q && Q < BPow(nl)
    ensures Cong(x * Pow2(BITS2 * nl), a, N) && Cong((x - N) * Pow2(BITS2 * nl), a, N)
    ensures a < N * Pow2(BITS2 * nl) ==> x < 2 * N
  {
    hide Shl, Pow2;
    var p: int := Pow2(BITS2 * nl);
    BPowPow2(nl);
    ShlIsMul(nl, x);
    CongIntro(x * p, a, N, Q);
    Distribute(p, x, -N);
    Signs(p, N);
    Distribute(N, Q, -p);
    Signs(N, p);
    CongIntro((x - N) * p, a, N, Q - p);
    if a < N * p && 2 * N <= x {
      MulLe(Q, p, N);
      MulLe(2 * N, x, p);
      MulAssoc(2, N, p);
    }
  }

  lemma ProductLength(t: bignum, N: bignum)
    requires Mag(t) < Mag(N) * Pow2(BITS2 * |N.d|)
    ensures |t.d| <= 2 * |N.d|
  {
    hide Num, Shl, Pow2, Fixed;
    var nl := |N.d|;
    NumBound(N.d, 0, nl);
    BPowPow2(nl);
    MulLe(Mag(N), BPow(nl), BPow(nl));
    BPowAdd(nl, nl);
    FixedLength(t.d, 2 * nl);
  }

  lemma ReducedProduct(x: nat, y: nat, N: bignum)
    requires x < Mag(N) && y <= Mag(N)
    ensures x * y < Mag(N) * Pow2(BITS2 * |N.d|)
  {
    hide Num, Pow2;
    NumBound(N.d, 0, |N.d|);
    BPowPow2(|N.d|);
    MulLe(y, Mag(N), x);
    MulLt(x, Mag(N), Mag(N));
    MulLe(Mag(N), BPow(|N.d|), Mag(N));
  }

  lemma WordsBound(a: bignum, n: nat)
    requires |a.d| <= n
    ensures Mag(a) < BPow(n)
  {
    NumBound(a.d, 0, |a.d|);
    BPowMono(|a.d|, n);
  }

  lemma FormLength(a: bignum, N: bignum)
    requires Mag(a) < Mag(N)
    ensures |a.d| <= 2 * |N.d|
  {
    hide Num, Fixed;
    NumBound(N.d, 0, |N.d|);
    FixedLength(a.d, |N.d|);
  }

  lemma IntoForm(r: int, a: int, rr: int, e: nat, N: int)
    requires N % 2 == 1 && IsRedc(r, a * rr, e, N) && Cong(rr, Pow2(2 * e), N)
    ensures Stands(r, a, e, N)
  {
    hide Pow2;
    var p := Pow2(e);
    Pow2Add(e, e);
    CongScale(rr, p * p, a, N);
    MulAssoc(a, p, p);
    CancelShift(r, a * p, e, N);
  }

  lemma CancelForm(r: int, v: int, a: int, e: nat, N: int)
    requires N % 2 == 1 && IsRedc(r, a, e, N) && Stands(a, v, e, N)
    ensures r == v % N
  {
    hide Pow2;
    CancelShift(r, v, e, N);
    CongRange(v, r, N);
  }
}
