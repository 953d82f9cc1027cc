/** Modular exponentiation: bn_exp.c. */
module Exponent {
  import opened Arith
  import opened Limbs
  import opened BigNum
  import opened Shift
  import opened Product
  import opened Divide
  import opened Montgomery
  import opened Reciprocal

  /** What every exponentiation promises.  A zero exponent gives 1 without looking at m. */
  ghost predicate IsModExp(r: bignum, a: int, p: nat, m: nat)
  {
    !r.neg && if p == 0 then Mag(r) == 1 else 0 < m && Mag(r) == Pow(a, p) % m
  }

  /** That is a^p mod |m|, except that the power 1 is not reduced modulo 1. */
  lemma ModExpMeaning(r: bignum, a: int, p: nat, m: nat)
    requires 0 < m && IsModExp(r, a, p, m)
    ensures Mag(r) == Pow(a, p) % m <==> !(p == 0 && m == 1)
  {
    DivModUnique(1, 1, 1, 0);
    if m > 1 { DivModUnique(1, m, 0, 1); }
  }

  // ---------- the three multiplications ----------

  /** The multiplication used by BN_mod_exp_simple, BN_mod_exp_recp and BN_mod_exp_mont. */
  datatype Multiplier = Plain(m: bignum) | Recp(recp: RecpCtx) | Mont(mont: MontCtx)

  ghost function Footprint(k: Multiplier): set<object>
  {
    match k
    case Plain(_) => {}
    case Recp(c) => {c}
    case Mont(c) => {c}
  }

  /** k multiplies modulo n, on forms scaled by 2^e. */
  ghost predicate Works(k: Multiplier, e: nat, n: nat)
    reads Footprint(k)
  {
    0 < n &&
    match k
    case Plain(m) => Mag(m) == n && e == 0
    case Recp(c) => c.Valid() && Mag(c.N) == n && e == 0
    case Mont(c) => c.Valid() && Mag(c.N) == n && e == c.ri
  }

  ghost predicate Form(x: bignum, v: int, e: nat, n: nat)
  {
    !x.neg && Stands(Mag(x), v, e, n) && (e > 0 ==> Mag(x) < n)
  }

  /** BN_mod_mul. */
  method ModMul(a: bignum, b: bignum, m: bignum) returns (ok: bool, r: bignum)
    ensures ok <==> Mag(m) > 0
    ensures ok ==> !r.neg && Mag(r) == (Int(a) * Int(b)) % Mag(m)
  {
    hide Num, Shl, Fixed, Cong;
    var t;
    if a == b {
      t := Sqr(a);
      SignedProduct(a, b);
    } else {
      t := Mul(a, b);
    }
    ZeroMag(m);
    r := Zero();
    ok := !IsZero(m);
    if ok {
      r := NNMod(t, m);
      ResidueOf(Mag(r), Int(t), Mag(m));
    }
  }

  lemma ResidueOf(r: nat, x: int, m: nat)
    requires r < m && Cong(r, x, m)
    ensures r == x % m
  {
    CongRange(x, r, m);
  }

  /** One multiplication of forms: BN_mod_mul, BN_mod_mul_reciprocal or BN_mod_mul_montgomery. */
  method Multiply(k: Multiplier, x: bignum, y: bignum, ghost u: int, ghost v: int, ghost e: nat, ghost n: nat) returns (r: bignum)
    requires Works(k, e, n) && Form(x, u, e, n) && Form(y, v, e, n)
    modifies Footprint(k)
    ensures Works(k, e, n) && Form(r, u * v, e, n) && Mag(r) < n
  {
    hide Num, Shl, Fixed, Pow2, Stands;
    match k {
      case Plain(m) =>
        var ok;
        ok, r := ModMul(x, y, m);
        PlainProduct(Mag(x), Mag(y), Mag(r), u, v, n);
      case Recp(c) =>
        var a;
        if x == y {
          a := Sqr(x);
        } else {
          a := Mul(x, y);
        }
        var ok, d;
        ok, d, r := c.DivRecp(a);
        PlainProduct(Mag(x), Mag(y), Mag(a) % n, u, v, n);
        RemainderOf(Mag(a), Mag(r), Mag(d), n);
      case Mont(c) =>
        FormIsPositive(c);
        r := c.MulForms(x, y, u, v);
    }
  }

  lemma FormIsPositive(c: MontCtx)
    requires c.Valid()
    ensures c.ri > 0
  {
  }

  lemma RemainderOf(a: nat, r: nat, d: nat, n: nat)
    requires a == d * n + r && r < n
    ensures r == a % n
  {
    DivModUnique(a, n, d, r);
  }

  lemma PlainProduct(x: int, y: int, r: int, u: int, v: int, n: int)
    requires 0 < n && Stands(x, u, 0, n) && Stands(y, v, 0, n) && r == (x * y) % n
    ensures Stands(r, u * v, 0, n)
  {
    hide Pow2, Cong, Stands;
    Unscaled(x, u, n);
    Unscaled(y, v, n);
    CongMul(x, u, y, v, n);
    CongMod(x * y, n);
    CongTrans((x * y) % n, x * y, u * v, n);
    Unscaled(r, u * v, n);
  }

  lemma Unscaled(x: int, u: int, n: int)
    requires 0 < n
    ensures Stands(x, u, 0, n) <==> Cong(x, u, n)
  {
  }

  // ---------- the sliding window ----------

  const TABLE_SIZE: nat := 32

  function WindowBits(bits: nat): (w: nat)
    ensures 1 <= w <= 6
  {
    if bits > 671 then 6 else if bits > 239 then 5 else if bits > 79 then 4 else if bits > 23 then 3 else 1
  }

  /** Entry i of the table holds a^(2i + 1). */
  ghost predicate Filled(val: seq<bignum>, j: nat, a: int, e: nat, n: nat)
  {
    j <= |val| && forall i: nat | i < j :: Form(val[i], Pow(a, 2 * i + 1), e, n)
  }

  /** The odd powers needed for windows of the given size fill at most TABLE_SIZE entries. */
  method FillTable(k: Multiplier, x: bignum, window: nat, ghost a: int, ghost e: nat, ghost n: nat) returns (val: array<bignum>)
    requires Works(k, e, n) && Form(x, a, e, n) && 1 <= window <= 6
    modifies Footprint(k)
    ensures Works(k, e, n) && fresh(val) && Filled(val[..], Pow2(window - 1), a, e, n)
  {
    hide Num, Shl, Fixed, Pow2, Form, Works, Pow;
    val := new bignum[TABLE_SIZE](_ => Zero());
    val[0] := x;
    SmallPowers(a);
    if window > 1 {
      var d := Multiply(k, val[0], val[0], a, a, e, n);
      var j := Pow2(window - 1);
      var i := 1;
      while i < j
        invariant 1 <= i <= j <= TABLE_SIZE == val.Length
        invariant Works(k, e, n) && Filled(val[..], i, a, e, n)
      {
        ghost var before := val[..];
        assert val[i - 1] == before[i - 1];
        PowAdd(a, 2 * (i - 1) + 1, 2);
        var t := Multiply(k, val[i - 1], d, Pow(a, 2 * (i - 1) + 1), a * a, e, n);
        val[i] := t;
        FilledMore(before, val[..], i, a, e, n);
        i := i + 1;
      }
    }
  }

  lemma FilledMore(s: seq<bignum>, t: seq<bignum>, i: nat, a: int, e: nat, n: nat)
    requires Filled(s, i, a, e, n) && i < |t| && i <= |s| && t[..i] == s[..i] && Form(t[i], Pow(a, 2 * i + 1), e, n)
    ensures Filled(t, i + 1, a, e, n)
  {
    hide Form, Pow;
    forall k: nat | k < i + 1
      ensures Form(t[k], Pow(a, 2 * k + 1), e, n)
    {
      if k < i { assert t[k] == t[..i][k] == s[..i][k] == s[k]; }
    }
  }

  lemma SmallPowers(a: int)
    ensures Pow(a, 0) == 1 && Pow(a, 1) == a && Pow(a, 2) == a * a
    ensures Pow2(0) == 1 && Pow2(1) == 2 && Pow2(2) == 4 && Pow2(3) == 8 && Pow2(4) == 16 && Pow2(5) == 32
  {
    assert Pow(a, 1) == a * Pow(a, 0);
    assert Pow(a, 2) == a * Pow(a, 1);
  }

  /** The window that starts at a set bit: it ends at a set bit, and wvalue holds its bits. */
  method FindWindow(p: bignum, wstart: nat, window: nat) returns (wvalue: nat, wend: nat)
    requires 0 < window && Shr(Mag(p), wstart) % 2 == 1
    ensures wend <= wstart && wvalue % 2 == 1 && wvalue < Pow2(window)
    ensures Shr(Mag(p), wstart - wend) == Shr(Mag(p), wstart + 1) * Pow2(wend + 1) + wvalue
  {
    hide Num, Shl, Fixed, Pow2, Shr, WindowValue;
    wvalue, wend := 1, 0;
    ghost var x := Mag(p);
    FirstBit(x, wstart);
    var i := 1;
    while i < window && wstart - i >= 0
      invariant 0 <= wend < i <= window && i <= wstart + 1
      invariant WindowValue(x, wstart, wend, wvalue)
      invariant Shr(x, wstart + 1 - i) == Shr(x, wstart - wend) * Pow2(i - 1 - wend)
    {
      var bit := IsBitSet(p, wstart - i);
      NextBit(x, wstart, wend, i, wvalue);
      if bit {
        wvalue := wvalue * Pow2(i - wend) + 1;
        wend := i;
      }
      i := i + 1;
    }
    WindowBound(x, wstart, wend, wvalue, window);
  }

  ghost predicate WindowValue(x: nat, wstart: nat, wend: nat, wvalue: nat)
  {
    && wend <= wstart && wvalue % 2 == 1 && wvalue < Pow2(wend + 1)
    && Shr(x, wstart - wend) == Shr(x, wstart + 1) * Pow2(wend + 1) + wvalue
  }

  lemma FirstBit(x: nat, wstart: nat)
    requires Shr(x, wstart) % 2 == 1
    ensures WindowValue(x, wstart, 0, 1) && Shr(x, wstart) == Shr(x, wstart) * Pow2(0)
  {
    hide Shr;
    ShrStep(x, wstart);
    SmallPowers(0);
  }

  lemma WindowBound(x: nat, wstart: nat, wend: nat, wvalue: nat, window: nat)
    requires WindowValue(x, wstart, wend, wvalue) && wend < window
    ensures wend <= wstart && wvalue % 2 == 1 && wvalue < Pow2(window)
    ensures Shr(x, wstart - wend) == Shr(x, wstart + 1) * Pow2(wend + 1) + wvalue
  {
    Pow2Mono(wend + 1, window);
  }

  lemma NextBit(x: nat, wstart: nat, wend: nat, i: nat, wvalue: nat)
    requires wend < i <= wstart && WindowValue(x, wstart, wend, wvalue)
    requires Shr(x, wstart + 1 - i) == Shr(x, wstart - wend) * Pow2(i - 1 - wend)
    ensures Shr(x, wstart - i) % 2 == 0 ==> Shr(x, wstart - i) == Shr(x, wstart - wend) * Pow2(i - wend)
    ensures Shr(x, wstart - i) % 2 == 1 ==> WindowValue(x, wstart, i, wvalue * Pow2(i - wend) + 1)
    ensures Shr(x, wstart - i) % 2 == 1 ==> Shr(x, wstart - i) == Shr(x, wstart - i) * Pow2(0)
  {
    hide Shr;
    ShrStep(x, wstart - i);
    SmallPowers(0);
    var q, H, P := Pow2(i - wend), Shr(x, wstart + 1), Pow2(wend + 1);
    assert q == 2 * Pow2(i - 1 - wend);
    MulAssoc(Shr(x, wstart - wend), Pow2(i - 1 - wend), 2);
    Pow2Add(wend + 1, i - wend);
    ExtendWindow(Shr(x, wstart - wend), H, P, q, wvalue);
  }

  lemma ExtendWindow(y: int, H: int, P: int, q: int, w: int)
    requires y == H * P + w && 0 <= w < P && 2 <= q && q % 2 == 0
    ensures y * q + 1 == H * (P * q) + (w * q + 1) && 0 <= w * q + 1 < P * q
    ensures (w * q + 1) % 2 == 1
  {
    Distribute(q, H * P, w);
    MulAssoc(H, P, q);
    MulLe(w, P - 1, q);
    Distribute(q, P, -1);
    MulAssoc(w, q / 2, 2);
  }

  /** j squarings. */
  method SquareTimes(k: Multiplier, x: bignum, j: nat, ghost a: int, ghost h: nat, ghost e: nat, ghost n: nat) returns (r: bignum)
    requires Works(k, e, n) && Form(x, Pow(a, h), e, n) && Mag(x) < n
    modifies Footprint(k)
    ensures Works(k, e, n) && 0 <= h * Pow2(j) && Form(r, Pow(a, h * Pow2(j)), e, n) && Mag(r) < n
  {
    hide Num, Shl, Fixed, Pow2, Form, Works, Pow;
    r := x;
    SmallPowers(a);
    var i := 0;
    while i < j
      invariant 0 <= i <= j && 0 <= h * Pow2(i)
      invariant Works(k, e, n) && Form(r, Pow(a, h * Pow2(i)), e, n) && Mag(r) < n
    {
      DoublePower(a, h, i);
      r := Multiply(k, r, r, Pow(a, h * Pow2(i)), Pow(a, h * Pow2(i)), e, n);
      i := i + 1;
    }
  }

  lemma DoublePower(a: int, h: nat, i: nat)
    requires 0 <= h * Pow2(i)
    ensures 0 <= h * Pow2(i + 1)
    ensures Pow(a, h * Pow2(i)) * Pow(a, h * Pow2(i)) == Pow(a, h * Pow2(i + 1))
  {
    MulAssoc(h, Pow2(i), 2);
    PowAdd(a, h * Pow2(i), h * Pow2(i));
  }

  /** The main loop of the three sliding-window exponentiations. */
  method SlidingWindow(k: Multiplier, one: bignum, x: bignum, p: bignum, bits: nat, ghost a: int, ghost e: nat, ghost n: nat) returns (r: bignum)
    requires Works(k, e, n) && Form(one, 1, e, n) && Form(x, a, e, n)
    requires BitLength(Mag(p), bits) && bits > 0
    modifies Footprint(k)
    ensures Works(k, e, n) && Form(r, Pow(a, Mag(p)), e, n) && Mag(r) < n
  {
    hide Num, Shl, Fixed, Pow2, Form, Works, Pow, Shr, BitLength, Filled;
    var window := WindowBits(bits);
    var val := FillTable(k, x, window, a, e, n);
    var start, wstart := true, bits - 1;
    r := one;
    NoBitsAbove(Mag(p), bits);
    SmallPowers(a);
    while wstart >= 0
      invariant -1 <= wstart < bits
      invariant Works(k, e, n) && Form(r, Pow(a, Shr(Mag(p), wstart + 1)), e, n)
      invariant start ==> Shr(Mag(p), wstart + 1) == 0
      invariant !start ==> Mag(r) < n
      invariant Filled(val[..], Pow2(window - 1), a, e, n)
    {
      ghost var h := Shr(Mag(p), wstart + 1);
      ShrStep(Mag(p), wstart);
      var bit := IsBitSet(p, wstart);
      if !bit {
        if !start {
          PowAdd(a, h, h);
          r := Multiply(k, r, r, Pow(a, h), Pow(a, h), e, n);
        }
        wstart := wstart - 1;
      } else {
        var wvalue, wend := FindWindow(p, wstart, window);
        if !start {
          r := SquareTimes(k, r, wend + 1, a, h, e, n);
        }
        MulZero(Pow2(wend + 1));
        TableEntry(val[..], wvalue, window, a, e, n);
        PowAdd(a, h * Pow2(wend + 1), wvalue);
        r := Multiply(k, r, val[wvalue / 2], Pow(a, h * Pow2(wend + 1)), Pow(a, wvalue), e, n);
        wstart := wstart - wend - 1;
        start := false;
      }
    }
    ShrZero(Mag(p));
  }

  lemma NoBitsAbove(x: nat, bits: nat)
    requires BitLength(x, bits) && bits > 0
    ensures Shr(x, bits) == 0 && x > 0
  {
    ShrUnique(x, bits, 0, x);
  }

  /** The window value always selects a filled entry. */
  lemma TableEntry(val: seq<bignum>, wvalue: nat, window: nat, a: int, e: nat, n: nat)
    requires 1 <= window && wvalue % 2 == 1 && wvalue < Pow2(window) && Filled(val, Pow2(window - 1), a, e, n)
    ensures wvalue / 2 < |val| && Form(val[wvalue / 2], Pow(a, wvalue), e, n)
  {
    hide Form, Pow;
    var i: nat := wvalue / 2;
    assert 2 * i + 1 == wvalue && i < Pow2(window - 1);
  }

  // ---------- the exponentiations ----------

  /** BN_mod_exp_simple. */
  method ModExpSimple(a: bignum, p: bignum, m: bignum) returns (ok: bool, r: bignum)
    ensures ok <==> Mag(p) == 0 || Mag(m) > 0
    ensures ok ==> IsModExp(r, Int(a), Mag(p), Mag(m))
  {
    hide Num, Shl, Fixed, Pow2, Pow, BitLength, Cong, Stands;
    var bits := NumBits(p);
    EmptyBits(Mag(p), bits);
    var one := SetWord(1);
    ZeroMag(m);
    if bits == 0 { return true, one; }
    if IsZero(m) { return false, one; }
    var val0 := NNMod(a, m);
    ZeroMag(val0);
    if IsZero(val0) {
      ZeroPower(Int(a), Mag(p), Mag(m));
      NumNil([], 0);
      return true, Zero();
    }
    Unscaled(Mag(val0), Int(a), Mag(m));
    OneForm(Mag(m));
    r := SlidingWindow(Plain(m), one, val0, p, bits, Int(a), 0, Mag(m));
    Unscaled(Mag(r), Pow(Int(a), Mag(p)), Mag(m));
    ResidueOf(Mag(r), Pow(Int(a), Mag(p)), Mag(m));
    ok := true;
  }

  /** BN_mod_exp_recp. */
  method ModExpRecp(a: bignum, p: bignum, m: bignum) returns (ok: bool, r: bignum)
    ensures ok <==> Mag(p) == 0 || Mag(m) > 0
    ensures ok ==> IsModExp(r, Int(a), Mag(p), Mag(m))
  {
    hide Num, Shl, Fixed, Pow2, Pow, BitLength, Cong, Stands;
    var bits := NumBits(p);
    EmptyBits(Mag(p), bits);
    var one := SetWord(1);
    ZeroMag(m);
    if bits == 0 { return true, one; }
    var recp := new RecpCtx();
    recp.Set(m.(neg := false));
    if IsZero(m) { return false, one; }
    var val0 := NNMod(a, m);
    ZeroMag(val0);
    if IsZero(val0) {
      ZeroPower(Int(a), Mag(p), Mag(m));
      NumNil([], 0);
      return true, Zero();
    }
    Unscaled(Mag(val0), Int(a), Mag(m));
    OneForm(Mag(m));
    r := SlidingWindow(Recp(recp), one, val0, p, bits, Int(a), 0, Mag(m));
    Unscaled(Mag(r), Pow(Int(a), Mag(p)), Mag(m));
    ResidueOf(Mag(r), Pow(Int(a), Mag(p)), Mag(m));
    ok := true;
  }

  lemma OneForm(n: nat)
    requires 0 < n
    ensures Stands(1, 1, 0, n)
  {
  }

  lemma ZeroPower(a: int, p: nat, n: nat)
    requires 0 < n && 0 < p && Cong(0, a, n)
    ensures Pow(a, p) % n == 0
  {
    CongPow(a, 0, p, n);
    CongRange(Pow(a, p), 0, n);
  }

  /** BN_mod_exp_mont, with its own context. */
  method ModExpMont(a: bignum, p: bignum, m: bignum) returns (ok: bool, r: bignum)
    requires m.d != []
    ensures ok <==> Mag(m) % 2 == 1
    ensures ok ==> IsModExp(r, Int(a), Mag(p), Mag(m))
  {
    hide Num, Shl, Fixed, Pow2, Pow, BitLength, Cong, Stands;
    OddMag(m);
    r := SetWord(1);
    if m.d[0] % 2 == 0 { return false, r; }
    var bits := NumBits(p);
    EmptyBits(Mag(p), bits);
    if bits == 0 { return true, r; }
    var mont := new MontCtx();
    ok := mont.Set(m);
    r := ModExpMontWith(mont, a, p, bits, m);
  }

  /** The body of BN_mod_exp_mont, for a context that belongs to m. */
  method ModExpMontWith(mont: MontCtx, a: bignum, p: bignum, bits: nat, m: bignum) returns (r: bignum)
    requires mont.Valid() && Mag(mont.N) == Mag(m) && BitLength(Mag(p), bits) && bits > 0
    modifies mont
    ensures IsModExp(r, Int(a), Mag(p), Mag(m))
  {
    hide Num, Shl, Fixed, Pow2, Pow, BitLength, Cong, Stands;
    EmptyBits(Mag(p), bits);
    var aa := a;
    var c := UCmp(a, m);
    BelowRadix(mont);
    if a.neg || c >= 0 {
      aa := NNMod(a, m);
    } else {
      SameIsCong(Int(a), Mag(m));
    }
    ZeroMag(aa);
    if IsZero(aa) {
      ZeroPower(Int(a), Mag(p), Mag(m));
      NumNil([], 0);
      return Zero();
    }
    var val0 := mont.ToMontgomery(aa);
    StandsFor(Mag(val0), Mag(aa), Int(a), mont.ri, Mag(m));
    var one := SetWord(1);
    var r0 := mont.ToMontgomery(one);
    r := SlidingWindow(Mont(mont), r0, val0, p, bits, Int(a), mont.ri, Mag(m));
    r := mont.OutOfForm(r, Pow(Int(a), Mag(p)));
  }

  lemma BelowRadix(mont: MontCtx)
    requires mont.Valid()
    ensures 0 < Mag(mont.N) < Pow2(mont.ri) && BASE <= Pow2(mont.ri) && mont.ri > 0
  {
    NumBound(mont.N.d, 0, |mont.N.d|);
    BPowPow2(|mont.N.d|);
    BPowMono(1, |mont.N.d|);
    BPowNext(0);
  }

  lemma StandsFor(x: int, u: int, v: int, e: nat, n: int)
    requires 0 < n && Stands(x, u, e, n) && Cong(u, v, n)
    ensures Stands(x, v, e, n)
  {
    CongScale(u, v, Pow2(e), n);
  }

  /** BN_mod_exp. */
  method ModExp(a: bignum, p: bignum, m: bignum) returns (ok: bool, r: bignum)
    ensures ok <==> Mag(p) == 0 || Mag(m) > 0
    ensures ok ==> IsModExp(r, Int(a), Mag(p), Mag(m))
  {
    hide Num, Shl, Fixed, Pow;
    OddMag(m);
    if IsOdd(m) {
      if |a.d| == 1 && !a.neg {
        WordMag(a);
        ok, r := ModExpMontWord(a.d[0], p, m);
      } else {
        ok, r := ModExpMont(a, p, m);
      }
    } else {
      ok, r := ModExpRecp(a, p, m);
    }
  }

  // ---------- the split accumulator ----------

  /** Dividing back detects exactly the products that do not fit in a word. */
  lemma OverflowTest(w: int, x: int)
    requires 0 <= w && 0 < x
    ensures ((w * x) % BASE) / x == w <==> w * x < BASE
  {
    var y := (w * x) % BASE;
    if w * x < BASE {
      DivModUnique(w * x, x, w, 0);
    } else {
      DivBound(y, x, w);
    }
  }

  /** The accumulator with the value v of r: v * w is a^h, and r is the Montgomery form of v
      unless v is 1. */
  ghost predicate Holds(r: bignum, isOne: bool, v: int, w: int, a: int, h: nat, e: nat, n: nat)
  {
    && 0 < n && 0 < w < BASE && Cong(v * w, Pow(a, h), n)
    && if isOne then v == 1 else Form(r, v, e, n)
  }

  /** The product r * w stands for a^h. */
  ghost predicate Accumulates(r: bignum, isOne: bool, w: int, a: int, h: nat, e: nat, n: nat)
  {
    exists v :: Holds(r, isOne, v, w, a, h, e, n)
  }

  /** r := r * w. */
  method Flush(mont: MontCtx, m: bignum, r: bignum, isOne: bool, w: word, ghost v: int, ghost e: nat, ghost n: nat) returns (r': bignum)
    requires mont.Valid() && Mag(mont.N) == Mag(m) == n && e == mont.ri
    requires if isOne then v == 1 else Form(r, v, e, n)
    ensures Form(r', v * w, e, n)
  {
    hide Num, Shl, Fixed, Pow2, Stands, Cong;
    BelowRadix(mont);
    if isOne {
      r' := SetWord(w);
      r' := mont.ToMontgomery(r');
    } else {
      r' := MulWord(r, w);
      var ok, dv, rm := Div(r', m);
      RemainderForm(Mag(r), v, w, Mag(r'), Mag(dv), Mag(rm), e, n);
      r' := rm;
    }
  }

  lemma RemainderForm(x: int, v: int, w: int, y: int, q: int, r: int, e: nat, n: int)
    requires 0 < n && Stands(x, v, e, n) && y == x * w && y == q * n + r
    ensures Stands(r, v * w, e, n)
  {
    var p := Pow2(e);
    CongScale(x, v * p, w, n);
    Rotate(v, p, w);
    CongIntro(y, r, n, q);
  }

  lemma Rotate(v: int, p: int, w: int)
    ensures (v * p) * w == (v * w) * p
  {
    MulAssoc(v, p, w);
    MulAssoc(v, w, p);
  }

  /** BN_mod_exp_mont_word. */
  method ModExpMontWord(a0: word, p: bignum, m: bignum) returns (ok: bool, rr: bignum)
    ensures ok <==> Mag(m) % 2 == 1
    ensures ok ==> IsModExp(rr, a0, Mag(p), Mag(m))
  {
    hide Num, Shl, Fixed, Pow2, Pow, BitLength, Cong, Stands;
    OddMag(m);
    rr := SetWord(1);
    if |m.d| == 0 || m.d[0] % 2 == 0 { return false, rr; }
    ok := true;
    var a := a0;
    ZeroMag(m);
    if |m.d| == 1 { a := a % m.d[0]; }
    ReducedWord(a0, m, a);
    var bits := NumBits(p);
    EmptyBits(Mag(p), bits);
    if bits == 0 { return; }
    if a == 0 {
      ZeroPower(a0, Mag(p), Mag(m));
      rr := Zero();
      NumNil([], 0);
      return;
    }
    var mont := new MontCtx();
    ok := mont.Set(m);
    rr := PowerOfWord(mont, a, p, bits, m);
    SamePower(a0, a, Mag(p), Mag(m));
  }

  lemma ReducedWord(a0: word, m: bignum, a: int)
    requires m.d != [] && 0 < m.d[0] && a == if |m.d| == 1 then a0 % m.d[0] else a0
    ensures 0 <= a < BASE && Mag(m) > 0 && Cong(a, a0, Mag(m))
    ensures a > 0 ==> Mag(m) > 1
  {
    ZeroMag(m);
    if |m.d| == 1 {
      WordMag(m);
      DivModUnique(a0, m.d[0], a0 / m.d[0], a0 % m.d[0]);
      CongMod(a0, Mag(m));
    } else {
      FixedBound(m.d);
      BPowMono(1, |m.d| - 1);
      BPowNext(0);
    }
  }

  lemma SamePower(a0: int, a: int, p: nat, n: nat)
    requires 0 < n && Cong(a, a0, n)
    ensures Pow(a, p) % n == Pow(a0, p) % n
  {
    CongPow(a, a0, p, n);
  }

  /** The accumulator loop and its end. */
  method PowerOfWord(mont: MontCtx, a: word, p: bignum, bits: nat, m: bignum) returns (rr: bignum)
    requires mont.Valid() && Mag(mont.N) == Mag(m) > 1 && 0 < a
    requires BitLength(Mag(p), bits) && bits > 0
    ensures !rr.neg && Mag(rr) == Pow(a, Mag(p)) % Mag(m)
  {
    hide Num, Shl, Fixed, Pow2, Pow, BitLength, Shr, Accumulates, Stands, Cong;
    ghost var n, e := Mag(m), mont.ri;
    var r, isOne, w := Zero(), true, a;
    TopBitSet(Mag(p), bits);
    FirstAccumulator(r, a, e, n);
    var b := bits - 2;
    while b >= 0
      invariant -1 <= b <= bits - 2
      invariant Accumulates(r, isOne, w, a, Shr(Mag(p), b + 1), e, n)
    {
      ShrStep(Mag(p), b);
      r, isOne, w := SquareAccumulator(mont, m, r, isOne, w, a, Shr(Mag(p), b + 1));
      var bit := IsBitSet(p, b);
      if bit {
        r, isOne, w := MultiplyAccumulator(mont, m, r, isOne, w, a, 2 * Shr(Mag(p), b + 1));
      }
      b := b - 1;
    }
    ShrZero(Mag(p));
    rr := FinishAccumulator(mont, m, r, isOne, w, a, Mag(p));
  }

  method FinishAccumulator(mont: MontCtx, m: bignum, r0: bignum, isOne0: bool, w: word, ghost a: int, ghost h: nat) returns (rr: bignum)
    requires mont.Valid() && Mag(mont.N) == Mag(m) > 1
    requires Accumulates(r0, isOne0, w, a, h, mont.ri, Mag(m))
    ensures !rr.neg && Mag(rr) == Pow(a, h) % Mag(m)
  {
    hide Num, Shl, Fixed, Pow2, Pow, Cong, Stands;
    var r, isOne := r0, isOne0;
    ghost var v :| Holds(r, isOne, v, w, a, h, mont.ri, Mag(m));
    if w != 1 {
      r := Flush(mont, m, r, isOne, w, v, mont.ri, Mag(m));
      isOne := false;
    }
    if isOne {
      rr := SetWord(1);
      CongRangeOne(Pow(a, h), Mag(m));
    } else {
      BelowRadix(mont);
      StandsFor(Mag(r), v * w, Pow(a, h), mont.ri, Mag(m));
      rr := mont.OutOfForm(r, Pow(a, h));
    }
  }

  lemma CongRangeOne(x: int, n: int)
    requires 1 < n && Cong(1, x, n)
    ensures x % n == 1
  {
    CongRange(x, 1, n);
  }

  lemma TopBitSet(x: nat, bits: nat)
    requires BitLength(x, bits) && bits > 0
    ensures Shr(x, bits - 1) == 1
  {
    ShrUnique(x, bits - 1, 1, x - Pow2(bits - 1));
  }

  lemma FirstAccumulator(r: bignum, a: int, e: nat, n: nat)
    requires 0 < n && 0 < a < BASE
    ensures Accumulates(r, true, a, a, 1, e, n)
  {
    SmallPowers(a);
    assert Holds(r, true, 1, a, a, 1, e, n);
  }

  /** Square r * w. */
  method SquareAccumulator(mont: MontCtx, m: bignum, r0: bignum, isOne0: bool, w0: word, ghost a: int, ghost h: nat)
    returns (r: bignum, isOne: bool, w: word)
    requires mont.Valid() && Mag(mont.N) == Mag(m)
    requires Accumulates(r0, isOne0, w0, a, h, mont.ri, Mag(m))
    ensures Accumulates(r, isOne, w, a, 2 * h, mont.ri, Mag(m))
  {
    hide Num, Shl, Fixed, Pow2, Pow, Cong, Stands;
    r, isOne := r0, isOne0;
    ghost var e, n := mont.ri, Mag(m);
    ghost var v0 :| Holds(r0, isOne0, v0, w0, a, h, e, n);
    ghost var v := v0;
    OverflowTest(w0, w0);
    SquarePower(v0, w0, a, h, n);
    ProductPositive(w0, w0);
    var next := (w0 * w0) % BASE;
    if next / w0 != w0 {
      r := Flush(mont, m, r, isOne, w0, v, e, n);
      isOne, v := false, v * w0;
      next := 1;
    }
    w := next;
    if !isOne {
      BelowRadix(mont);
      r := mont.MulForms(r, r, v, v);
    }
    assert Holds(r, isOne, v * v, w, a, 2 * h, e, n);
  }

  lemma ProductPositive(x: int, y: int)
    requires 0 < x && 0 < y
    ensures 0 < x * y && (x * y < BASE ==> (x * y) % BASE == x * y)
  {
    MulLe(1, x, y);
  }

  lemma SquarePower(v: int, w: int, a: int, h: nat, n: int)
    requires 0 < n && Cong(v * w, Pow(a, h), n)
    ensures Cong((v * v) * (w * w), Pow(a, 2 * h), n) && Cong(((v * w) * (v * w)) * 1, Pow(a, 2 * h), n)
  {
    CongMul(v * w, Pow(a, h), v * w, Pow(a, h), n);
    PowAdd(a, h, h);
    Shuffle(v, w, v, w);
  }

  /** Multiply r * w by a. */
  method MultiplyAccumulator(mont: MontCtx, m: bignum, r0: bignum, isOne0: bool, w0: word, a: word, ghost h: nat)
    returns (r: bignum, isOne: bool, w: word)
    requires mont.Valid() && Mag(mont.N) == Mag(m) && 0 < a
    requires Accumulates(r0, isOne0, w0, a, h, mont.ri, Mag(m))
    ensures Accumulates(r, isOne, w, a, h + 1, mont.ri, Mag(m))
  {
    hide Num, Shl, Fixed, Pow2, Pow, Cong, Stands;
    r, isOne := r0, isOne0;
    ghost var e, n := mont.ri, Mag(m);
    ghost var v0 :| Holds(r0, isOne0, v0, w0, a, h, e, n);
    ghost var v := v0;
    OverflowTest(w0, a);
    NextPower(v0, w0, a, h, n);
    ProductPositive(w0, a);
    var next := (w0 * a) % BASE;
    if next / a != w0 {
      r := Flush(mont, m, r, isOne, w0, v, e, n);
      isOne, v := false, v * w0;
      next := a;
    }
    w := next;
    assert Holds(r, isOne, v, w, a, h + 1, e, n);
  }

  lemma NextPower(v: int, w: int, a: int, h: nat, n: int)
    requires 0 < n && Cong(v * w, Pow(a, h), n)
    ensures Cong(v * (w * a), Pow(a, h + 1), n) && Cong((v * w) * a, Pow(a, h + 1), n)
  {
    CongScale(v * w, Pow(a, h), a, n);
    MulAssoc(v, w, a);
  }
}
