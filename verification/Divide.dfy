/** Long division: BN_div of bn_div.c, and BN_nnmod of bn_mod.c. */
module Divide {
  import opened WordDivision
  import opened Arith
  import opened Limbs
  import opened Words
  import opened Multiply
  import opened BigNum
  import opened Shift

  /** BN_TBIT, the top bit of a word. */
  const TBIT: int := 0x8000_0000

  // ---------- one quotient digit ----------

  /** The estimate of a quotient digit from the top three words of the window and the top two
      of the divisor: exactly the quotient of the three-word by the two-word number. */
  method EstimateDigit(n0: word, n1: word, n2: word, d0: word, d1: word) returns (q: word)
    requires n0 < d0 && TBIT <= d0
    ensures q * (BASE * d0 + d1) <= BASE * (BASE * n0 + n1) + n2 < (q + 1) * (BASE * d0 + d1)
  {
    ghost var u2, u3, v2 := BASE * n0 + n1, BASE * (BASE * n0 + n1) + n2, BASE * d0 + d1;
    var h := BASE * n0 + n1;
    DivBound(h, d0, BASE);
    q := DivWords(n0, n1, d0);
    DivModUnique(n0, d0, 0, n0);
    var rem := h % d0;
    var t2 := d1 * q;
    Trial(q, rem, d0, d1, u2, n2);
    while t2 > BASE * rem + n2
      invariant 0 <= q < BASE && 0 <= rem < BASE + d0
      invariant d0 * q + rem == u2 && t2 == d1 * q
      invariant u3 < (q + 1) * v2
      decreases q
    {
      Trial(q, rem, d0, d1, u2, n2);
      assert q > 0;
      q := q - 1;
      rem := rem + d0;
      Distribute(d0, q, 1);
      Distribute(d1, q, 1);
      if rem >= BASE {                         // `rem < d0` after wrap-around in the source
        WordProduct(d1, q);
        break;
      }
      t2 := t2 - d1;
    }
    Trial(q, rem, d0, d1, u2, n2);
  }

  /** The comparison made by the estimation loop, as a statement about the candidate digit. */
  lemma Trial(q: int, rem: int, d0: int, d1: int, u2: int, n2: int)
    requires d0 * q + rem == u2
    ensures d1 * q <= BASE * rem + n2 <==> q * (BASE * d0 + d1) <= BASE * u2 + n2
    ensures 0 <= rem < d0 && 0 <= d1 && 0 <= q && n2 < BASE ==> BASE * u2 + n2 < (q + 1) * (BASE * d0 + d1)
  {
    Distribute(q, BASE * d0, d1);
    MulAssoc(BASE, d0, q);
    Distribute(q + 1, BASE * d0, d1);
    MulAssoc(BASE, d0, q + 1);
    Distribute(d0, q, 1);
    if 0 <= d1 && 0 <= q { MulLe(0, d1, q + 1); }
  }

  /** q may serve as the digit of W / D: it is not too small, and at most one too large. */
  ghost predicate NearDigit(q: int, W: int, D: int)
  {
    q * D <= W + D && W < (q + 1) * D
  }

  /** An exact quotient of leading words is a near digit of the full numbers: W and D are U and
      V followed by k more words. */
  lemma LeadingQuotient(q: int, k: nat, U: int, V: int, wl: int, vl: int)
    requires 0 <= q < BASE && q * V <= U < (q + 1) * V
    requires 0 <= wl < BPow(k) && 0 <= vl < BPow(k) && BASE <= V
    ensures NearDigit(q, Shl(k, U) + wl, Shl(k, V) + vl)
  {
    hide Shl;
    NotTooSmall(q, k, U, V, wl, vl);
    NotTooLarge(q, k, U, V, wl, vl);
  }

  lemma NotTooSmall(q: int, k: nat, U: int, V: int, wl: int, vl: int)
    requires 0 <= q && U < (q + 1) * V && wl < BPow(k) && 0 <= vl
    ensures Shl(k, U) + wl < (q + 1) * (Shl(k, V) + vl)
  {
    hide Shl;
    var S, z := Shl(k, V), q + 1;
    ShlAdd(k, U, 1);
    ShlLess(k, V * z, U + 1);
    ShlMul(k, V, z);
    MulLe(0, vl, z);
    Distribute(z, S, vl);
  }

  lemma NotTooLarge(q: int, k: nat, U: int, V: int, wl: int, vl: int)
    requires 0 <= q < BASE && q * V <= U && 0 <= wl && 0 <= vl < BPow(k) && BASE <= V
    ensures q * (Shl(k, V) + vl) <= Shl(k, U) + wl + Shl(k, V) + vl
  {
    hide Shl;
    calc {
      q * (Shl(k, V) + vl);
      { Distribute(q, Shl(k, V), vl); ShlMul(k, V, q); }
      Shl(k, V * q) + q * vl;
    <= { ShlLess(k, U, V * q); MulLe(q, BASE, vl); }
      Shl(k, U) + BASE * vl;
    <=
      Shl(k, U) + BASE * Shl(k, 1);
      { ShlMul(k, 1, BASE); }
      Shl(k, U) + Shl(k, BASE);
    <= { ShlLess(k, V, BASE); }
      Shl(k, U) + Shl(k, V);
    }
  }

  /** When the leading words are equal, BASE - 1 is a near digit without looking further: here
      the divisor must be normalised. */
  lemma EqualLeadingWords(n: nat, R: int, D: int, d0: int, dl: int, rl: int, x: int)
    requires D == Shl(n, d0) + dl && 0 <= dl < BPow(n)
    requires R == Shl(n, d0) + rl && 0 <= rl && R < D
    requires 0 <= x < BASE && BPow(n + 1) <= 2 * D
    ensures NearDigit(BASE - 1, x + BASE * R, D)
  {
    BPowNext(n);
  }

  /** Subtract q times the divisor (n words at sd) from the window (n + 1 words at wd), and add
      the divisor back once when that went below zero.  tp is scratch for the product. */
  method DigitStep(mem: array<word>, wd: nat, sd: nat, n: nat, tp: nat, q: word) returns (q': word)
    requires wd + n + 1 <= mem.Length && sd + n <= mem.Length && tp + n + 1 <= mem.Length
    requires Apart(wd, n + 1, sd, n) && Apart(wd, n + 1, tp, n + 1) && Apart(tp, n + 1, sd, n)
    requires 0 < Num(mem[..], sd, n) && NearDigit(q, Num(mem[..], wd, n + 1), Num(mem[..], sd, n))
    modifies mem
    ensures Outside2(old(mem[..]), mem[..], wd, n + 1, tp, n + 1)
    ensures mem[wd + n] == 0 && Num(mem[..], wd, n) < old(Num(mem[..], sd, n))
    ensures old(Num(mem[..], wd, n + 1)) == q' * old(Num(mem[..], sd, n)) + Num(mem[..], wd, n)
  {
    hide Num, Shl;
    ghost var m0 := mem[..];
    ghost var W, D := Num(m0, wd, n + 1), Num(m0, sd, n);
    NumBound(m0, sd, n);
    var l0 := MulWords(mem, tp, sd, n, q);
    ghost var m1 := mem[..];
    mem[tp + n] := l0;
    ghost var m2 := mem[..];
    NumSame(m1, tp, m2, tp, n);
    NumSnoc(m2, tp, n);
    NumSame(m0, wd, m2, wd, n + 1);
    NumSame(m0, sd, m2, sd, n);
    var c := CmpWords(mem, wd, tp, n + 1);
    q' := q;
    Distribute(D, q, 1);
    if c >= 0 {
      Subtract(mem, wd, wd, tp, n + 1);
      ClearTop(mem[..], wd, n, D);
    } else {
      Subtract(mem, wd, tp, wd, n + 1);
      ghost var m3 := mem[..];
      NumSame(m2, sd, m3, sd, n);
      assert 0 < Num(m3, wd, n + 1) <= D;
      DigitPositive(q, W, D);
      q' := q - 1;
      Distribute(D, q', 1);
      ClearTop(m3, wd, n, D + 1);
      Subtract(mem, wd, sd, wd, n);
    }
  }

  lemma DigitPositive(q: int, W: int, D: int)
    requires 0 <= W < q * D && 0 < D
    ensures 0 < q
  {
    if q <= 0 { MulLe(q, 0, D); }
  }

  /** A value that fits in n words leaves word n clear. */
  lemma ClearTop(m: seq<word>, p: nat, n: nat, bound: int)
    requires p + n + 1 <= |m| && Num(m, p, n + 1) < bound <= BPow(n)
    ensures m[p + n] == 0 && Num(m, p, n) == Num(m, p, n + 1)
  {
    hide Num, Shl;
    NumSnoc(m, p, n);
    ShlZero(n);
    ShlLess(n, m[p + n], 1);
  }

  /** The choice of a quotient digit at the head of BN_div's loop: the window is the n + 1 words
      at wd, whose upper n words are smaller than the divisor. */
  method ChooseDigit(mem: array<word>, wd: nat, sd: nat, n: nat) returns (q: word)
    requires 0 < n && 0 < wd && wd + n + 1 <= mem.Length && sd + n <= mem.Length
    requires TBIT <= mem[sd + n - 1]
    requires Num(mem[..], wd + 1, n) < Num(mem[..], sd, n)
    ensures NearDigit(q, Num(mem[..], wd, n + 1), Num(mem[..], sd, n))
  {
    hide Num, Shl;
    var n0, n1, n2 := mem[wd + n], mem[wd + n - 1], mem[wd + n - 2];
    var d0 := mem[sd + n - 1];
    var d1 := if n == 1 then 0 else mem[sd + n - 2];
    ghost var m := mem[..];
    NumSnoc(m, wd + 1, n - 1);
    NumSnoc(m, sd, n - 1);
    NumBound(m, sd, n - 1);
    NumFront(m, wd, n + 1);
    if n0 == d0 {
      q := BASE - 1;
      Normalised(n - 1, d0);
      EqualLeadingWords(n - 1, Num(m, wd + 1, n), Num(m, sd, n), d0, Num(m, sd, n - 1), Num(m, wd + 1, n - 1), m[wd]);
    } else {
      TopWordDecides(m, wd + 1, m, sd, n - 1);
      q := EstimateDigit(n0, n1, n2, d0, d1);
      EstimateIsNear(m, wd, sd, n, q);
    }
  }

  lemma EstimateIsNear(m: seq<word>, wd: nat, sd: nat, n: nat, q: word)
    requires 0 < n && 0 < wd && wd + n + 1 <= |m| && sd + n <= |m|
    requires var d1 := if n == 1 then 0 else m[sd + n - 2];
             var V, U := BASE * m[sd + n - 1] + d1, BASE * (BASE * m[wd + n] + m[wd + n - 1]) + m[wd + n - 2];
             0 < m[sd + n - 1] && q * V <= U < (q + 1) * V
    ensures NearDigit(q, Num(m, wd, n + 1), Num(m, sd, n))
  {
    hide Num, Shl;
    var d0 := m[sd + n - 1];
    if n == 1 {
      NumFront(m, wd, 2);
      NumFront(m, wd + 1, 1);
      NumFront(m, sd, 1);
      NumNil(m, wd + 2);
      NumNil(m, sd + 1);
      SingleWord(q, BASE * m[wd + 1] + m[wd], d0, m[wd - 1]);
    } else {
      var d1 := m[sd + n - 2];
      LeadingWords(m, wd, n);
      NumSnoc(m, sd, n - 1);
      NumSnoc(m, sd, n - 2);
      ShlColumn(n - 2, d1, d0);
      NumBound(m, sd, n - 2);
      NumBound(m, wd, n - 2);
      LeadingQuotient(q, n - 2, BASE * (BASE * m[wd + n] + m[wd + n - 1]) + m[wd + n - 2], BASE * d0 + d1,
                      Num(m, wd, n - 2), Num(m, sd, n - 2));
    }
  }

  lemma Normalised(n: nat, d0: int)
    requires TBIT <= d0
    ensures BPow(n + 1) <= 2 * Shl(n, d0)
  {
    hide Shl;
    ShlColumn(n, 0, 1);
    ShlZero(n);
    ShlAdd(n, d0, d0);
    ShlLess(n, 2 * d0, BASE);
  }

  lemma SingleWord(q: int, W: int, d: int, x: int)
    requires 0 <= x < BASE && 0 < d && q * (BASE * d) <= BASE * W + x < (q + 1) * (BASE * d)
    ensures NearDigit(q, W, d)
  {
    MulAssoc(BASE, d, q);
    MulAssoc(BASE, d, q + 1);
  }

  lemma LeadingWords(m: seq<word>, p: nat, n: nat)
    requires 2 <= n && p + n + 1 <= |m|
    ensures Num(m, p, n + 1)
         == Shl(n - 2, BASE * (BASE * m[p + n] + m[p + n - 1]) + m[p + n - 2]) + Num(m, p, n - 2)
  {
    hide Num, Shl;
    NumSnoc(m, p, n);
    NumSnoc(m, p, n - 1);
    NumSnoc(m, p, n - 2);
    ShlColumn(n - 1, m[p + n - 1], m[p + n]);
    ShlColumn(n - 2, m[p + n - 2], BASE * m[p + n] + m[p + n - 1]);
  }

  /** The state of the division loop: wd words of the dividend N are still untouched, r is the
      current remainder and Q the number formed by the digits found so far. */
  ghost predicate DivState(N: int, low: int, wd: nat, r: int, D: int, Q: int)
  {
    N == low + Shl(wd, r + D * Q) && 0 <= r < D
  }

  lemma NextDigit(N: int, low: int, x: int, wd: nat, r: int, D: int, Q: int, q: int, r': int)
    requires DivState(N, low + Shl(wd, x), wd + 1, r, D, Q)
    requires x + BASE * r == q * D + r' && 0 <= r' < D
    ensures DivState(N, low, wd, r', D, q + BASE * Q)
  {
    hide Shl;
    ShlColumn(wd, x, r + D * Q);
    Distribute(D, q, BASE * Q);
    MulAssoc(BASE, Q, D);
    assert x + BASE * (r + D * Q) == r' + D * (q + BASE * Q);
  }

  /** The division loop of BN_div.  The dividend occupies loop + n words at sn, its lowest word
      is zero; the normalised divisor n words at sd; tp is scratch.  On return res holds the
      quotient and the dividend has been replaced by the remainder, one word up. */
  method DivideWords(mem: array<word>, sn: nat, loop: nat, sd: nat, n: nat, tp: nat) returns (res: array<word>)
    requires 0 < n && 0 < loop
    requires sn + loop + n <= mem.Length && sd + n <= mem.Length && tp + n + 1 <= mem.Length
    requires Apart(sn, loop + n, sd, n) && Apart(sn, loop + n, tp, n + 1) && Apart(tp, n + 1, sd, n)
    requires mem[sn] == 0 && TBIT <= mem[sd + n - 1]
    modifies mem
    ensures fresh(res) && res.Length == loop
    ensures var N, D, R := old(Num(mem[..], sn, loop + n)), old(Num(mem[..], sd, n)), Num(mem[..], sn + 1, n);
            && 0 <= R < D && N == BASE * (R + D * Num(res[..], 0, loop))
            && Num(mem[..], sn, loop + n) == BASE * R
  {
    hide Num, Shl, Progress;
    ghost var m0 := mem[..];
    res := new word[loop](_ => 0);
    var digit := FirstDigit(mem, sn + loop, sd, n);
    res[loop - 1] := digit;
    FirstState(m0, mem[..], res[..], sn, loop, sd, n);
    var wd := loop;
    while wd > 1
      invariant 1 <= wd <= loop && |m0| == mem.Length
      invariant Progress(m0, mem[..], res[..], sn, loop, wd, sd, n)
    {
      wd := wd - 1;
      DivideDigit(mem, res, m0, sn, loop, wd, sd, n, tp);
    }
    LastState(m0, mem[..], res[..], sn, loop, sd, n);
  }

  /** The loop invariant of BN_div with the window at word wd of the dividend. */
  ghost predicate Progress(m0: seq<word>, m: seq<word>, res: seq<word>, sn: nat, loop: nat, wd: nat, sd: nat, n: nat)
    requires 1 <= wd <= loop == |res| && sn + loop + n <= |m0| == |m| && sd + n <= |m0|
  {
    && (forall i | sn <= i < sn + wd || sd <= i < sd + n :: m[i] == m0[i])
    && (forall i | sn + wd + n <= i < sn + loop + n :: m[i] == 0)
    && DivState(Num(m0, sn, loop + n), Num(m0, sn, wd), wd, Num(m, sn + wd, n), Num(m0, sd, n), Num(res, wd - 1, loop - wd + 1))
  }

  /** One iteration of BN_div's loop. */
  method DivideDigit(mem: array<word>, res: array<word>, ghost m0: seq<word>, sn: nat, loop: nat, wd: nat, sd: nat, n: nat, tp: nat)
    requires 0 < n && 0 < wd < loop && res.Length == loop && |m0| == mem.Length && mem != res
    requires sn + loop + n <= mem.Length && sd + n <= mem.Length && tp + n + 1 <= mem.Length
    requires Apart(sn, loop + n, sd, n) && Apart(sn, loop + n, tp, n + 1) && Apart(tp, n + 1, sd, n)
    requires TBIT <= m0[sd + n - 1]
    requires Progress(m0, mem[..], res[..], sn, loop, wd + 1, sd, n)
    modifies mem, res
    ensures Progress(m0, mem[..], res[..], sn, loop, wd, sd, n)
  {
    hide Num, Shl, DivState, NearDigit, Apart, Outside2;
    ghost var m1, r1 := mem[..], res[..];
    NumSame(m0, sd, m1, sd, n);
    RemainderSmall(m0, m1, r1, sn, loop, wd + 1, sd, n);
    WindowApart(sn, loop, wd, sd, n, tp);
    var q := ChooseDigit(mem, sn + wd, sd, n);
    q := DigitStep(mem, sn + wd, sd, n, tp, q);
    WindowFrame(m0, m1, mem[..], sn, loop, wd, sd, n, tp);
    res[wd - 1] := q;
    NumFront(m1, sn + wd, n + 1);
    NumSnoc(m0, sn, wd);
    NumSame(r1, wd, res[..], wd, loop - wd);
    NumFront(res[..], wd - 1, loop - wd + 1);
    NextDigit(Num(m0, sn, loop + n), Num(m0, sn, wd), m0[sn + wd], wd, Num(m1, sn + wd + 1, n), Num(m0, sd, n),
              Num(r1, wd, loop - wd), q, Num(mem[..], sn + wd, n));
  }

  lemma RemainderSmall(m0: seq<word>, m: seq<word>, res: seq<word>, sn: nat, loop: nat, wd: nat, sd: nat, n: nat)
    requires 1 <= wd <= loop == |res| && sn + loop + n <= |m0| == |m| && sd + n <= |m0|
    requires Progress(m0, m, res, sn, loop, wd, sd, n)
    ensures Num(m, sn + wd, n) < Num(m0, sd, n)
  {
  }

  lemma WindowApart(sn: nat, loop: nat, wd: nat, sd: nat, n: nat, tp: nat)
    requires wd < loop
    requires Apart(sn, loop + n, sd, n) && Apart(sn, loop + n, tp, n + 1) && Apart(tp, n + 1, sd, n)
    ensures Apart(sn + wd, n + 1, sd, n) && Apart(sn + wd, n + 1, tp, n + 1)
  {
  }

  /** A digit step keeps the untouched words, and clears the word the window leaves behind. */
  lemma WindowFrame(m0: seq<word>, m1: seq<word>, m2: seq<word>, sn: nat, loop: nat, wd: nat, sd: nat, n: nat, tp: nat)
    requires wd < loop && sn + loop + n <= |m0| == |m1| && sd + n <= |m0|
    requires Apart(sn, loop + n, sd, n) && Apart(sn, loop + n, tp, n + 1) && Apart(tp, n + 1, sd, n)
    requires Outside2(m1, m2, sn + wd, n + 1, tp, n + 1) && m2[sn + wd + n] == 0
    requires forall i | sn <= i < sn + wd + 1 || sd <= i < sd + n :: m1[i] == m0[i]
    requires forall i | sn + wd + 1 + n <= i < sn + loop + n :: m1[i] == 0
    ensures forall i | sn <= i < sn + wd || sd <= i < sd + n :: m2[i] == m0[i]
    ensures forall i | sn + wd + n <= i < sn + loop + n :: m2[i] == 0
  {
  }

  /** Before the loop: the top n words of the dividend give a digit 0 or 1. */
  method FirstDigit(mem: array<word>, wd: nat, sd: nat, n: nat) returns (digit: word)
    requires 0 < n && wd + n <= mem.Length && sd + n <= mem.Length && Apart(wd, n, sd, n)
    requires TBIT <= mem[sd + n - 1]
    modifies mem
    ensures Outside(old(mem[..]), mem[..], wd, wd + n)
    ensures digit <= 1 && Num(mem[..], wd, n) < old(Num(mem[..], sd, n))
    ensures old(Num(mem[..], wd, n)) == Num(mem[..], wd, n) + old(Num(mem[..], sd, n)) * digit
  {
    hide Num, Shl;
    ghost var m0 := mem[..];
    NumBound(m0, wd, n);
    NumSnoc(m0, sd, n - 1);
    Normalised(n - 1, m0[sd + n - 1]);
    var c := CmpWords(mem, wd, sd, n);
    digit := 0;
    if c >= 0 {
      Subtract(mem, wd, wd, sd, n);
      digit := 1;
    }
  }

  lemma FirstState(m0: seq<word>, m1: seq<word>, res: seq<word>, sn: nat, loop: nat, sd: nat, n: nat)
    requires 0 < loop == |res| && sn + loop + n <= |m0| == |m1| && sd + n <= |m0|
    requires Num(m0, sn + loop, n) == Num(m1, sn + loop, n) + Num(m0, sd, n) * res[loop - 1]
    requires Num(m1, sn + loop, n) < Num(m0, sd, n)
    requires Outside(m0, m1, sn + loop, sn + loop + n) && Apart(sn, loop + n, sd, n)
    ensures Progress(m0, m1, res, sn, loop, loop, sd, n)
  {
    hide Num, Shl;
    NumSplit(m0, sn, loop, n);
    NumFront(res, loop - 1, 1);
    NumNil(res, loop);
  }

  lemma LastState(m0: seq<word>, m: seq<word>, res: seq<word>, sn: nat, loop: nat, sd: nat, n: nat)
    requires 0 < loop == |res| && sn + loop + n <= |m0| == |m| && sd + n <= |m0| && m0[sn] == 0
    requires Progress(m0, m, res, sn, loop, 1, sd, n)
    ensures var R, D := Num(m, sn + 1, n), Num(m0, sd, n);
            && 0 <= R < D && Num(m0, sn, loop + n) == BASE * (R + D * Num(res, 0, loop))
            && Num(m, sn, loop + n) == BASE * R
  {
    hide Num, Shl;
    var X := Num(m, sn + 1, n) + Num(m0, sd, n) * Num(res, 0, loop);
    NumZeros(m0, sn, 1);
    ShlColumn(0, 0, X);
    ShlWord(BASE * X);
    ShlWord(0);
    NumFront(m, sn, loop + n);
    NumSplit(m, sn + 1, n, loop - 1);
    NumZeros(m, sn + 1 + n, loop - 1);
    ShlZero(n);
  }

  // ---------- BN_div ----------

  /** What BN_div promises: truncating division. */
  ghost predicate Divides(num: bignum, divisor: bignum, dv: bignum, rm: bignum)
  {
    && Mag(num) == Mag(dv) * Mag(divisor) + Mag(rm) && Mag(rm) < Mag(divisor)
    && (rm.neg ==> num.neg) && (Mag(rm) != 0 ==> rm.neg == num.neg)
    && (rm.neg && Mag(rm) == 0 ==> Mag(num) == 0) && (Mag(num) < Mag(divisor) ==> rm == num)
    && (dv.neg ==> num.neg != divisor.neg) && (Mag(dv) != 0 ==> dv.neg == (num.neg != divisor.neg))
  }

  lemma DividesInt(num: bignum, divisor: bignum, dv: bignum, rm: bignum)
    requires Divides(num, divisor, dv, rm)
    ensures Int(dv) * Int(divisor) + Int(rm) == Int(num)
  {
    Signs(Mag(dv), Mag(divisor));
  }

  /** BN_div; a zero divisor is the only failure. */
  method Div(num: bignum, divisor: bignum) returns (ok: bool, dv: bignum, rm: bignum)
    ensures ok <==> Int(divisor) != 0
    ensures ok ==> Divides(num, divisor, dv, rm)
    ensures ok ==> Int(dv) * Int(divisor) + Int(rm) == Int(num)
  {
    hide Num, Shl;
    ZeroMag(divisor);
    if IsZero(divisor) { return false, Zero(), Zero(); }
    ok := true;
    var c := UCmp(num, divisor);
    if c < 0 {
      dv, rm := Zero(), num;
      NumNil([], 0);
      MulZero(Mag(divisor));
      DividesInt(num, divisor, dv, rm);
      return;
    }
    dv, rm := DivLong(num, divisor);
    DividesInt(num, divisor, dv, rm);
  }

  /** The main path of BN_div: normalise, divide word by word, undo the normalisation. */
  method DivLong(num: bignum, divisor: bignum) returns (dv: bignum, rm: bignum)
    requires 0 < Mag(divisor) <= Mag(num)
    ensures Divides(num, divisor, dv, rm)
  {
    hide Num, Shl, Fixed, Pow2, Shr, BitLength;
    var bits := NumBits(divisor);
    var shift := BITS2 - bits % BITS2;
    var sdiv := LShift(divisor, shift);
    var snum := LShift(num, shift + BITS2);
    NormalisedTop(Mag(divisor), bits, shift, sdiv);
    ShiftedDividend(Mag(num), Mag(divisor), shift, snum, sdiv);
    var n, loop := |sdiv.d|, |snum.d| - |sdiv.d|;
    var mem := Layout(n + 1, snum.d, sdiv.d);
    var res := DivideWords(mem, n + 1, loop, n + 1 + loop + n, n, 0);
    ghost var R := Num(mem[..], n + 2, n);
    Descale(Mag(num), Mag(divisor), shift, R, Num(res[..], 0, loop));
    dv := Store(res, 0, loop, num.neg != divisor.neg);
    var rem := Store(mem, n + 1, loop + n, false);
    rm := RShift(rem, shift + BITS2);
    if !IsZero(rm) { rm := rm.(neg := num.neg); }
    ZeroMag(rm);
  }

  lemma MulZero(x: int)
    ensures 0 * x == 0 && x * 0 == 0
  {
  }

  /** Shifting the divisor to a whole number of words sets its top bit. */
  lemma NormalisedTop(x: nat, bits: nat, shift: nat, s: bignum)
    requires BitLength(x, bits) && x > 0 && shift == BITS2 - bits % BITS2 && Mag(s) == x * Pow2(shift)
    ensures s.d != [] && TBIT <= s.d[|s.d| - 1]
  {
    hide Num, Shl, Pow2;
    var k := (bits + shift) / BITS2;
    assert bits + shift == BITS2 * k;
    BPowPow2(k);
    BPowPow2(k - 1);
    BitLengthUp(Mag(s), shift, x, 0, bits);
    FixedLength(s.d, k);
    FixedLength(s.d, k - 1);
    Pow2Small();
    Pow2Add(BITS2 * (k - 1), 31);
    Pow2Mono(BITS2 * (k - 1), BITS2 * (k - 1) + 31);
    var w: int := s.d[k - 1];
    NumSnoc(s.d, 0, k - 1);
    NumBound(s.d, 0, k - 1);
    ShlAdd(k - 1, w, 1);
    ShlIsMul(k - 1, TBIT);
    ShlLess(k - 1, w + 1, TBIT);
    ShlLess(k - 1, TBIT, w + 1);
  }

  /** The shifted dividend has a zero low word and more words than the divisor. */
  lemma ShiftedDividend(x: nat, y: nat, shift: nat, sx: bignum, sy: bignum)
    requires y <= x && sy.d != []
    requires Mag(sx) == x * Pow2(shift + BITS2) && Mag(sy) == y * Pow2(shift)
    ensures |sy.d| < |sx.d| && sx.d[0] == 0 && Mag(sx) == BASE * (x * Pow2(shift))
  {
    hide Num, Shl, Pow2;
    Pow2Small();
    Pow2Add(shift, BITS2);
    MulAssoc(x, Pow2(shift), BASE);
    MulLe(y, x, Pow2(shift));
    var n := |sy.d|;
    FixedBound(sy.d);
    BPowNext(n - 1);
    FixedLength(sx.d, n);
    NumFront(sx.d, 0, |sx.d|);
  }

  lemma Descale(x: nat, y: nat, shift: nat, R: nat, Q: nat)
    requires BASE * (x * Pow2(shift)) == BASE * (R + (y * Pow2(shift)) * Q) && R < y * Pow2(shift)
    ensures var r := x - Q * y; 0 <= r < y && Shr(BASE * R, shift + BITS2) == r
  {
    hide Pow2;
    var P := Pow2(shift);
    var r := x - Q * y;
    MulAssoc(y, P, Q);
    MulAssoc(y, Q, P);
    Distribute(P, x, -(Q * y));
    Signs(Q * y, P);
    assert R == r * P;
    if r < 0 { MulLe(r, -1, P); }
    if r >= y { MulLe(y, r, P); }
    Pow2Small();
    Pow2Add(shift, BITS2);
    MulAssoc(BASE, P, r);
    ShrUnique(BASE * R, shift + BITS2, r, 0);
  }

  // ---------- bn_mod.c ----------

  /** BN_nnmod: the least non-negative remainder modulo |d|.  A negative zero is the one
      dividend for which the result is |d| itself. */
  method NNMod(m: bignum, d: bignum) returns (r: bignum)
    requires Mag(d) > 0
    ensures !r.neg && Cong(Mag(r), Int(m), Mag(d))
    ensures Mag(r) <= Mag(d)
    ensures Mag(r) < Mag(d) <==> !(m.neg && Mag(m) == 0)
  {
    hide Num, Shl, Divides;
    var ok, dv, rm := Div(m, d);
    ModResidue(m, d, dv, rm);
    if !rm.neg { return rm; }
    if d.neg {
      r := Sub(rm, d);
    } else {
      r := Add(rm, d);
    }
  }

  lemma ModResidue(m: bignum, d: bignum, dv: bignum, rm: bignum)
    requires Mag(d) > 0 && Divides(m, d, dv, rm)
    ensures Cong(Int(rm), Int(m), Mag(d)) && Cong(Int(rm) + Mag(d), Int(m), Mag(d))
    ensures Mag(rm) < Mag(d) && (rm.neg && Mag(rm) == 0 <==> m.neg && Mag(m) == 0)
  {
    DividesInt(m, d, dv, rm);
    var k := if d.neg then -Int(dv) else Int(dv);
    Signs(Int(dv), Mag(d));
    assert Int(dv) * Int(d) == k * Mag(d);
    CongIntro(Int(m), Int(rm), Mag(d), k);
    CongIntro(Int(rm) + Mag(d), Int(rm), Mag(d), 1);
  }
}
