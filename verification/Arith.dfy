/** Integer facts shared by the multi-precision proofs: products, quotients, powers of two
    and congruences.  Each lemma is about explicitly named integers, so that the solver never
    has to search for an instance. */
module Arith {

  lemma MulLe(a: int, b: int, c: int)
    requires a <= b && 0 <= c
    ensures a * c <= b * c
  {
  }

  lemma MulLt(a: int, b: int, c: int)
    requires a < b && 0 < c
    ensures a * c < b * c
  {
  }

  lemma MulAssoc(a: int, b: int, c: int)
    ensures (a * b) * c == a * (b * c)
  {
  }

  lemma Distribute(a: int, b: int, c: int)
    ensures a * (b + c) == a * b + a * c
    ensures (b + c) * a == b * a + c * a
  {
  }

  lemma Shuffle(a: int, b: int, c: int, d: int)
    ensures (a * b) * (c * d) == (a * c) * (b * d)
  {
    calc {
      (a * b) * (c * d);
      { MulAssoc(a, b, c * d); }
      a * (b * (c * d));
      { MulAssoc(b, c, d); MulAssoc(c, b, d); }
      a * (c * (b * d));
      { MulAssoc(a, c, b * d); }
      (a * c) * (b * d);
    }
  }

  /** Quotient and remainder are determined by the division identity. */
  lemma DivModUnique(x: int, d: int, q: int, r: int)
    requires 0 < d && 0 <= r < d && x == d * q + r
    ensures q == x / d && r == x % d
  {
    var q', r' := x / d, x % d;
    assert x == d * q' + r';
    Distribute(d, q, -q');
    assert d * (q - q') == r' - r;
    if q - q' >= 1 {
      MulLe(1, q - q', d);
    } else if q - q' <= -1 {
      MulLe(q - q', -1, d);
    }
  }

  lemma DivBound(x: int, d: int, q: int)
    requires 0 < d && 0 <= x < d * q
    ensures 0 <= x / d < q
  {
    var q', r' := x / d, x % d;
    assert x == d * q' + r';
    if q' >= q { MulLe(q, q', d); }
    if q' < 0 { MulLe(q', -1, d); }
  }

  lemma Signs(x: int, y: int)
    ensures (-x) * y == -(x * y) && x * (-y) == -(x * y) && (-x) * (-y) == x * y
  {
  }

  /** Two stretches of memory do not overlap. */
  predicate Apart(p: nat, n: nat, q: nat, m: nat)
  {
    p + n <= q || q + m <= p
  }

  // ---------- powers ----------

  function Pow(b: int, e: nat): int
  {
    if e == 0 then 1 else b * Pow(b, e - 1)
  }

  lemma {:induction false} PowAdd(b: int, e: nat, f: nat)
    ensures Pow(b, e + f) == Pow(b, e) * Pow(b, f)
  {
    if e > 0 {
      PowAdd(b, e - 1, f);
      MulAssoc(b, Pow(b, e - 1), Pow(b, f));
    }
  }

  function Pow2(e: nat): (p: nat)
    ensures 1 <= p
  {
    if e == 0 then 1 else 2 * Pow2(e - 1)
  }

  lemma {:induction false} Pow2Add(e: nat, f: nat)
    ensures Pow2(e + f) == Pow2(e) * Pow2(f)
  {
    if e > 0 {
      Pow2Add(e - 1, f);
      MulAssoc(2, Pow2(e - 1), Pow2(f));
    }
  }

  lemma {:induction false} Pow2Mono(e: nat, f: nat)
    requires e <= f
    ensures Pow2(e) <= Pow2(f)
  {
    if e < f { Pow2Mono(e, f - 1); }
  }

  lemma Pow2Small()
    ensures Pow2(1) == 2 && Pow2(8) == 0x100 && Pow2(16) == 0x1_0000
    ensures Pow2(31) == 0x8000_0000 && Pow2(32) == 0x1_0000_0000
  {
    assert Pow2(4) == 16;
    Pow2Add(4, 4);
    Pow2Add(8, 8);
    Pow2Add(16, 16);
    assert Pow2(32) == 2 * Pow2(31);
  }

  /** x shifted right by n bits. */
  function Shr(x: nat, n: nat): nat
  {
    DivNat(x, Pow2(n));
    x / Pow2(n)
  }

  lemma DivNat(x: nat, d: nat)
    requires 0 < d
    ensures 0 <= x / d <= x
  {
    var q, r := x / d, x % d;
    assert x == d * q + r;
    if q < 0 { MulLe(q, -1, d); }
    MulLe(1, d, q);
  }

  lemma ShrUnique(x: nat, n: nat, q: int, r: int)
    requires 0 <= r < Pow2(n) && x == Pow2(n) * q + r
    ensures q == Shr(x, n)
  {
    DivModUnique(x, Pow2(n), q, r);
  }

  lemma ShrShr(x: nat, m: nat, n: nat)
    ensures Shr(Shr(x, m), n) == Shr(x, m + n)
  {
    var d, e := Pow2(m), Pow2(n);
    var y, z := Shr(x, m), Shr(Shr(x, m), n);
    TwoDivisions(x, d, e, y, x % d, z, y % e);
    Pow2Add(m, n);
    ShrUnique(x, m + n, z, d * (y % e) + x % d);
  }

  lemma TwoDivisions(x: int, d: int, e: int, y: int, r: int, z: int, s: int)
    requires x == d * y + r && 0 <= r < d
    requires y == e * z + s && 0 <= s < e
    ensures x == (d * e) * z + (d * s + r) && 0 <= d * s + r < d * e
  {
    Distribute(d, e * z, s);
    MulAssoc(d, e, z);
    MulLe(s + 1, e, d);
    MulLe(0, s, d);
    Distribute(d, s, 1);
  }

  lemma ShrZero(x: nat)
    ensures Shr(x, 0) == x
  {
    ShrUnique(x, 0, x, 0);
  }

  /** The next bit below a prefix. */
  lemma ShrStep(x: nat, n: nat)
    ensures Shr(x, n) == 2 * Shr(x, n + 1) + Shr(x, n) % 2
  {
    ShrShr(x, n, 1);
    assert Pow2(1) == 2;
  }

  /** Adding a multiple of 2^(n+1) leaves bit n alone. */
  lemma BitOfSum(x: nat, y: nat, n: nat)
    ensures 0 <= Pow2(n + 1) * y
    ensures Shr(x + Pow2(n + 1) * y, n) % 2 == Shr(x, n) % 2
  {
    hide Pow2;
    MulLe(0, y, Pow2(n + 1));
    Pow2Double(n);
    var q, r := Shr(x, n), x % Pow2(n);
    AddMultiple(x, Pow2(n), q, r, y);
    ShrUnique(x + Pow2(n + 1) * y, n, q + 2 * y, r);
  }

  lemma Pow2Zero()
    ensures Pow2(0) == 1
  {
  }

  lemma Pow2Double(n: nat)
    ensures Pow2(n + 1) == 2 * Pow2(n)
  {
  }

  lemma AddMultiple(x: int, d: int, q: int, r: int, y: int)
    requires x == d * q + r
    ensures x + (2 * d) * y == d * (q + 2 * y) + r
  {
    Distribute(d, q, 2 * y);
    MulAssoc(2, d, y);
    MulAssoc(d, 2, y);
  }

  // ---------- congruence ----------

  ghost predicate Cong(a: int, b: int, m: int)
    requires 0 < m
  {
    a % m == b % m
  }

  lemma SameIsCong(a: int, n: int)
    requires 0 < n
    ensures Cong(a, a, n)
  {
  }

  lemma CongIntro(a: int, b: int, m: int, k: int)
    requires 0 < m && a == b + k * m
    ensures Cong(a, b, m)
  {
    Distribute(m, b / m, k);
    assert a == m * (b / m + k) + b % m;
    DivModUnique(a, m, b / m + k, b % m);
  }

  lemma CongElim(a: int, b: int, m: int) returns (k: int)
    requires 0 < m && Cong(a, b, m)
    ensures a == b + k * m
  {
    k := a / m - b / m;
    Distribute(m, a / m, -(b / m));
  }

  lemma CongAdd(a: int, b: int, c: int, d: int, m: int)
    requires 0 < m && Cong(a, b, m) && Cong(c, d, m)
    ensures Cong(a + c, b + d, m)
    ensures Cong(a - c, b - d, m)
  {
    var k := CongElim(a, b, m);
    var l := CongElim(c, d, m);
    Distribute(m, k, l);
    Distribute(m, k, -l);
    CongIntro(a + c, b + d, m, k + l);
    CongIntro(a - c, b - d, m, k - l);
  }

  lemma CongScale(a: int, b: int, c: int, m: int)
    requires 0 < m && Cong(a, b, m)
    ensures Cong(a * c, b * c, m) && Cong(c * a, c * b, m)
  {
    var k := CongElim(a, b, m);
    Distribute(c, b, k * m);
    MulAssoc(c, k, m);
    CongIntro(a * c, b * c, m, c * k);
  }

  lemma CongMul(a: int, b: int, c: int, d: int, m: int)
    requires 0 < m && Cong(a, b, m) && Cong(c, d, m)
    ensures Cong(a * c, b * d, m)
  {
    CongScale(a, b, c, m);
    CongScale(c, d, b, m);
  }

  lemma CongTrans(x: int, y: int, z: int, n: int)
    requires 0 < n && Cong(x, y, n) && Cong(y, z, n)
    ensures Cong(x, z, n) && Cong(z, x, n)
  {
  }

  lemma CongMod(a: int, m: int)
    requires 0 < m
    ensures Cong(a % m, a, m) && Cong(a, a % m, m)
  {
    CongIntro(a, a % m, m, a / m);
  }

  /** A residue in range is the remainder. */
  lemma CongRange(a: int, r: int, m: int)
    requires 0 < m && 0 <= r < m && Cong(a, r, m)
    ensures r == a % m
  {
    DivModUnique(r, m, 0, r);
  }

  lemma {:induction false} CongPow(a: int, b: int, e: nat, m: int)
    requires 0 < m && Cong(a, b, m)
    ensures Cong(Pow(a, e), Pow(b, e), m)
  {
    if e > 0 {
      CongPow(a, b, e - 1, m);
      CongMul(a, b, Pow(a, e - 1), Pow(b, e - 1), m);
    }
  }

  /** An odd modulus lets a factor of two be cancelled. */
  lemma CancelTwo(x: int, m: int)
    requires 0 < m && m % 2 == 1 && Cong(2 * x, 0, m)
    ensures Cong(x, 0, m)
  {
    var k := CongElim(2 * x, 0, m);
    var h := m / 2;
    assert m == 2 * h + 1;
    Distribute(k, 2 * h, 1);
    assert 2 * x == 2 * (k * h) + k;
    var l := x - k * h;
    assert k == 2 * l;
    assert 2 * x == (2 * l) * m == 2 * (l * m);
    CongIntro(x, 0, m, l);
  }

  lemma {:induction false} CancelPow2(x: int, e: nat, m: int)
    requires 0 < m && m % 2 == 1 && Cong(Pow2(e) * x, 0, m)
    ensures Cong(x, 0, m)
  {
    if e > 0 {
      MulAssoc(2, Pow2(e - 1), x);
      CancelTwo(Pow2(e - 1) * x, m);
      CancelPow2(x, e - 1, m);
    }
  }
}
