/** bn_div_words without a double-width machine division, and the half-word product mul64:
    bn_asm.c and bn_lcl.h. */
module WordDivision {
  import opened Arith
  import opened Limbs
  import opened Shift

  const HALF: int := 0x1_0000

  /** mul64: the double word h, l from the halves of two words. */
  method Mul64(al: int, ah: int, bl: int, bh: int) returns (l: word, h: word)
    requires 0 <= al < HALF && 0 <= ah < HALF && 0 <= bl < HALF && 0 <= bh < HALF
    ensures BASE * h + l == (HALF * ah + al) * (HALF * bh + bl)
  {
    HalfProducts(al, ah, bl, bh);
    SmallProduct(bh, al);
    SmallProduct(bl, ah);
    SmallProduct(bl, al);
    SmallProduct(bh, ah);
    WholeProduct(HALF * ah + al, HALF * bh + bl);
    l, h := CombineHalves(bh * al, bl * ah, bl * al, bh * ah);
  }

  lemma WholeProduct(x: int, y: int)
    requires 0 <= x < BASE && 0 <= y < BASE
    ensures x * y < BASE * BASE
  {
    MulLe(x, BASE, y);
  }

  /** The carries between the four products. */
  method CombineHalves(m0: int, m1: int, lo: int, hi0: int) returns (l: word, h: word)
    requires 0 <= m0 < BASE && 0 <= m1 < BASE && 0 <= lo < BASE && 0 <= hi0 < BASE
    requires BASE * hi0 + HALF * (m0 + m1) + lo < BASE * BASE
    ensures BASE * h + l == BASE * hi0 + HALF * (m0 + m1) + lo
  {
    var m, hi := (m0 + m1) % BASE, hi0;
    if m < m1 { hi := hi + HALF; }
    hi := hi + m / HALF;
    var low := HALF * (m % HALF);
    l := (lo + low) % BASE;
    if l < low { hi := hi + 1; }
    h := hi;
  }

  lemma SmallProduct(x: int, y: int)
    requires 0 <= x < HALF && 0 <= y < HALF
    ensures 0 <= x * y <= (HALF - 1) * (HALF - 1)
  {
    MulLe(x, HALF - 1, y);
    MulLe(0, x, y);
  }

  lemma HalfProducts(al: int, ah: int, bl: int, bh: int)
    ensures (HALF * ah + al) * (HALF * bh + bl) == BASE * (bh * ah) + HALF * (bh * al + bl * ah) + bl * al
  {
    var x := HALF * bh + bl;
    Distribute(x, HALF * ah, al);
    MulAssoc(HALF, ah, x);
    Distribute(ah, HALF * bh, bl);
    Distribute(al, HALF * bh, bl);
    MulAssoc(HALF, bh, ah);
    MulAssoc(HALF, bh, al);
  }

  /** The trial digit of bn_div_words, brought down until it is the exact half-word quotient. */
  method TrialDigit(h: word, lh: int, dh: int, dl: int, ghost d: int) returns (q: int, th: int, tl: int)
    requires 0x8000 <= dh < HALF && 0 <= dl < HALF && 0 <= lh < HALF && h < d == HALF * dh + dl
    ensures 0 <= q < HALF && q * d == HALF * th + tl && 0 <= th && 0 <= tl < BASE
    ensures q * d <= HALF * h + lh < (q + 1) * d
  {
    ghost var W := HALF * h + lh;
    if h / HALF == dh {
      q := HALF - 1;
    } else {
      q := h / dh;
    }
    FirstDigit(h, lh, dh, dl, q);
    th, tl := q * dh, dl * q;
    while !(h - th >= HALF || tl <= HALF * (h - th) + lh)
      invariant 0 <= q < HALF && th == q * dh && tl == q * dl && th <= h
      invariant W < (q + 1) * d
      decreases q
    {
      DigitTest(q, h, lh, dh, dl);
      q := q - 1;
      DigitTest(q, h, lh, dh, dl);
      th, tl := th - dh, tl - dl;
    }
    SmallProduct(q, dl);
    SmallProduct(q, dh);
    DigitTest(q, h, lh, dh, dl);
  }

  /** The first trial is not too small, and its high part does not exceed h. */
  lemma FirstDigit(h: word, lh: int, dh: int, dl: int, q: int)
    requires 0x8000 <= dh < HALF && 0 <= dl < HALF && 0 <= lh < HALF && h < HALF * dh + dl
    requires q == if h / HALF == dh then HALF - 1 else h / dh
    ensures 0 <= q < HALF && q * dh <= h && HALF * h + lh < (q + 1) * (HALF * dh + dl)
  {
    var d := HALF * dh + dl;
    if h / HALF == dh {
      assert HALF * dh <= h;
      MulLe(HALF - 1, HALF, dh);
    } else {
      DivBound(h, dh, HALF);
      var r := h % dh;
      assert h == dh * q + r && 0 <= r < dh;
      Distribute(dh, q, 1);
      Distribute(q + 1, HALF * dh, dl);
      MulAssoc(HALF, dh, q + 1);
      MulLe(0, dl, q + 1);
    }
  }

  /** The test of the inner loop decides whether the digit is too large. */
  lemma DigitTest(q: int, h: int, lh: int, dh: int, dl: int)
    ensures q * dl <= HALF * (h - q * dh) + lh <==> q * (HALF * dh + dl) <= HALF * h + lh
    ensures (q + 1) * dh == q * dh + dh && (q + 1) * dl == q * dl + dl
    ensures (q - 1) * dh == q * dh - dh && (q - 1) * dl == q * dl - dl
    ensures q * (HALF * dh + dl) == HALF * (q * dh) + q * dl
  {
    Distribute(q, HALF * dh, dl);
    MulAssoc(q, HALF, dh);
    Distribute(dh, q, 1);
    Distribute(dl, q, 1);
    Distribute(dh, q, -1);
    Distribute(dl, q, -1);
  }

  /** One of the two rounds of bn_div_words: a half-word digit, and the dividend without it. */
  method HalfRound(h: word, l: word, d: word) returns (q: int, h': word, l': word)
    requires 0x8000_0000 <= d && h < d
    ensures 0 <= q < HALF && q * d <= HALF * h + l / HALF < (q + 1) * d
    ensures BASE * h' + l' == BASE * h + l - HALF * (q * d)
  {
    var dh, dl := d / HALF, d % HALF;
    var th, tl;
    q, th, tl := TrialDigit(h, l / HALF, dh, dl, d);
    var t := tl / HALF;
    var low := HALF * (tl % HALF);
    var high := th + t;
    if l < low { high := high + 1; }
    l' := (l - low) % BASE;
    ghost var p := q * d;
    NoBorrow(h, l, p, th, tl, high, low);
    h' := h - high;
  }

  /** The part subtracted is never larger than the dividend, so the add-back is dead code. */
  lemma NoBorrow(h: word, l: word, p: int, th: int, tl: int, high: int, low: int)
    requires p == HALF * th + tl && p <= HALF * h + l / HALF && 0 <= tl < BASE && 0 <= p
    requires low == HALF * (tl % HALF) && high == th + tl / HALF + (if l < low then 1 else 0)
    ensures high <= h && BASE * (h - high) + (l - low) % BASE == BASE * h + l - HALF * p
    ensures high >= 0
  {
    assert BASE * (th + tl / HALF) + low == HALF * p;
  }

  /** bn_div_words: the quotient of the double word h, l by d, whose shift brings its top bit to the
      top of the word.  A quotient that needs more than a word loses what one subtraction of d from h
      removes. */
  method DivWords(h: word, l: word, d: word) returns (ret: word)
    requires h < 2 * d || d == 0
    ensures d == 0 ==> ret == BASE - 1
    ensures d != 0 ==> ret == (BASE * (h % d) + l) / d
  {
    hide Pow2;
    if d == 0 { return BASE - 1; }
    var bits := NumBitsWord(d);
    var top := h;
    if top >= d { top := top - d; }
    DivModUnique(h, d, if h >= d then 1 else 0, top);
    var i := BITS2 - bits;
    TopBit(d, bits);
    if i == 0 {
      assert Pow2(0) == 1 by { Pow2Zero(); }
      ret := TwoRounds(top, l, d);
    } else {
      SplitWord(l, i);
      Normalised(top, l, d, Pow2(i), l / Pow2(BITS2 - i), (l * Pow2(i)) % BASE);
      var q := TwoRounds(top * Pow2(i) + l / Pow2(BITS2 - i), (l * Pow2(i)) % BASE, d * Pow2(i));
      ret := q;
    }
  }

  lemma TopBit(d: word, bits: nat)
    requires 0 < d && BitLength(d, bits) && bits <= BITS2
    ensures 0x8000_0000 <= d * Pow2(BITS2 - bits) < BASE
  {
    hide Pow2;
    var P := Pow2(BITS2 - bits);
    Pow2Small();
    Pow2Add(bits - 1, BITS2 - bits);
    Pow2Add(bits, BITS2 - bits);
    MulLe(Pow2(bits - 1), d, P);
    MulLe(d + 1, Pow2(bits), P);
    Distribute(P, d, 1);
  }

  /** Shifting dividend and divisor does not change the quotient. */
  lemma Normalised(h: int, l: int, d: int, P: int, lh: int, ll: int)
    requires 0 <= h < d && 0 < P && l * P == BASE * lh + ll && 0 <= ll && 0 <= lh < P
    ensures 0 <= h * P + lh < d * P
    ensures 0 < d * P && (BASE * (h * P + lh) + ll) / (d * P) == (BASE * h + l) / d
  {
    MulLe(0, h, P);
    MulLe(h + 1, d, P);
    Distribute(P, h, 1);
    MulLe(1, d, P);
    var x := BASE * h + l;
    assert BASE * (h * P + lh) + ll == x * P by {
      Distribute(P, BASE * h, l);
      MulAssoc(BASE, h, P);
    }
    var q, r := x / d, x % d;
    assert x == d * q + r;
    Distribute(P, d * q, r);
    MulAssoc(q, d, P);
    MulLe(0, r, P);
    MulLe(r + 1, d, P);
    Distribute(P, r, 1);
    DivModUnique(x * P, d * P, q, r * P);
  }

  /** The two rounds for a divisor with its top bit set. */
  method TwoRounds(h: word, l: word, d: word) returns (ret: word)
    requires 0x8000_0000 <= d && h < d
    ensures ret == (BASE * h + l) / d
  {
    var q1, h1, l1 := HalfRound(h, l, d);
    Remainder(h, l, d, q1, h1, l1);
    var h2 := (HALF * h1 + l1 / HALF) % BASE;
    var l2 := HALF * (l1 % HALF);
    var q2, h3, l3 := HalfRound(h2, l2, d);
    TwoDigits(h, l, d, q1, q2, h2);
    ret := HALF * q1 + q2;
  }

  /** What is left after the first digit is one word again. */
  lemma Remainder(h: word, l: word, d: word, q: int, h1: word, l1: word)
    requires q * d <= HALF * h + l / HALF < q * d + d
    requires BASE * h1 + l1 == BASE * h + l - HALF * (q * d)
    ensures (HALF * h1 + l1 / HALF) % BASE == HALF * h + l / HALF - q * d && l1 % HALF == l % HALF
  {
    var r := HALF * h + l / HALF - q * d;
    assert BASE * h1 + l1 == HALF * r + l % HALF;
    assert HALF * h1 + l1 / HALF == r;
  }

  lemma TwoDigits(h: int, l: int, d: int, q1: int, q2: int, r: int)
    requires 0 < d && 0 <= l && r == HALF * h + l / HALF - q1 * d
    requires q2 * d <= HALF * r + l % HALF < (q2 + 1) * d
    ensures HALF * q1 + q2 == (BASE * h + l) / d
  {
    Distribute(d, HALF * q1, q2);
    MulAssoc(HALF, q1, d);
    Distribute(d, q2, 1);
    DivModUnique(BASE * h + l, d, HALF * q1 + q2, HALF * r + l % HALF - q2 * d);
  }
}
