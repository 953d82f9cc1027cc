/** Greatest common divisors and inverses modulo n: bn_gcd.c. */
module Inverse {
  import opened Arith
  import opened Limbs
  import opened BigNum
  import opened Shift
  import opened Product
  import opened Divide

  // ---------- divisibility ----------

  ghost predicate Dvd(k: int, x: int)
  {
    0 < k && Cong(x, 0, k)
  }

  /** The pairs (a, b) and (c, d) have the same common divisors. */
  ghost predicate SameDivisors(a: int, b: int, c: int, d: int)
  {
    forall k | 0 < k :: Dvd(k, a) && Dvd(k, b) <==> Dvd(k, c) && Dvd(k, d)
  }

  ghost predicate Coprime(a: int, b: int)
  {
    forall k | Dvd(k, a) && Dvd(k, b) :: k == 1
  }

  /** g is the greatest common divisor: its divisors are the common divisors.  For a = b = 0
      this makes g = 0. */
  ghost predicate IsGcd(g: int, a: int, b: int)
  {
    0 <= g && forall k | 0 < k :: Dvd(k, g) <==> Dvd(k, a) && Dvd(k, b)
  }

  lemma DvdSelf(k: int)
    requires 0 < k
    ensures Dvd(k, k) && Dvd(k, 0)
  {
    CongIntro(k, 0, k, 1);
    CongIntro(0, 0, k, 0);
  }

  lemma DvdOne(k: int)
    requires Dvd(k, 1)
    ensures k == 1
  {
    if k > 1 { DivModUnique(1, k, 0, 1); DivModUnique(0, k, 0, 0); }
  }

  lemma DvdScale(k: int, x: int, y: int)
    requires Dvd(k, x)
    ensures Dvd(k, x * y) && Dvd(k, y * x)
  {
    CongScale(x, 0, y, k);
  }

  lemma DvdAdd(k: int, x: int, y: int)
    requires Dvd(k, x) && Dvd(k, y)
    ensures Dvd(k, x + y) && Dvd(k, x - y)
  {
    CongAdd(x, 0, y, 0, k);
  }

  lemma DvdOdd(k: int, n: int)
    requires Dvd(k, n) && n % 2 == 1
    ensures k % 2 == 1
  {
    var q := CongElim(n, 0, k);
    if k % 2 == 0 { MulAssoc(q, k / 2, 2); }
  }

  lemma DvdHalf(k: int, e: nat, x: int)
    requires k % 2 == 1 && Dvd(k, Pow2(e) * x)
    ensures Dvd(k, x)
  {
    CancelPow2(x, e, k);
  }

  /** One step of Euclid's algorithm. */
  lemma EuclidStep(a: int, b: int, q: int)
    ensures SameDivisors(a, b, b, a - q * b)
  {
    forall k | 0 < k
      ensures Dvd(k, a) && Dvd(k, b) <==> Dvd(k, b) && Dvd(k, a - q * b)
    {
      if Dvd(k, b) {
        DvdScale(k, b, q);
        if Dvd(k, a) { DvdAdd(k, a, q * b); }
        if Dvd(k, a - q * b) { DvdAdd(k, a - q * b, q * b); }
      }
    }
  }

  /** Powers of two may be removed from b when every common divisor divides an odd n. */
  lemma RemoveTwos(a: int, b: int, e: nat, c: int, n: int)
    requires n % 2 == 1 && SameDivisors(a, Pow2(e) * b, c, n)
    ensures SameDivisors(a, b, c, n)
  {
    forall k | 0 < k
      ensures Dvd(k, a) && Dvd(k, b) <==> Dvd(k, c) && Dvd(k, n)
    {
      if Dvd(k, b) { DvdScale(k, b, Pow2(e)); }
      if Dvd(k, c) && Dvd(k, n) {
        DvdOdd(k, n);
        DvdHalf(k, e, b);
      }
    }
  }

  lemma GcdOfZero(a: int, c: int, n: int)
    requires 0 < a && SameDivisors(a, 0, c, n)
    ensures a == 1 <==> Coprime(c, n)
  {
    DvdSelf(a);
    assert Dvd(a, c) && Dvd(a, n);
    if a == 1 {
      forall k | Dvd(k, c) && Dvd(k, n)
        ensures k == 1
      {
        DvdOne(k);
      }
    }
  }

  // ---------- BN_mod_inverse ----------

  /** The congruences kept by both inversion loops, with sign = -1 or 1 and a, n the inputs. */
  ghost predicate Bezout(sign: int, a: int, n: int, A: int, B: int, X: int, Y: int)
  {
    && 0 < n && (sign == -1 || sign == 1) && 0 < A && 0 <= B
    && Cong(-(sign * (X * a)), B, n) && Cong(sign * (Y * a), A, n)
    && SameDivisors(A, B, a, n)
  }

  lemma BezoutStart(a: int, n: int, B: int)
    requires 0 < n && 0 <= B && Cong(B, a, n)
    ensures Bezout(-1, a, n, n, B, 1, 0)
  {
    CongIntro(0, n, n, -1);
    var q := CongElim(B, a, n);
    EuclidStep(B, n, q);
    forall k | 0 < k
      ensures Dvd(k, n) && Dvd(k, B) <==> Dvd(k, a) && Dvd(k, n)
    {
      assert Dvd(k, B) && Dvd(k, n) <==> Dvd(k, n) && Dvd(k, B - q * n);
    }
  }

  /** The quotient step of the general algorithm. */
  lemma BezoutDivide(sign: int, a: int, n: int, A: int, B: int, X: int, Y: int, D: int)
    requires Bezout(sign, a, n, A, B, X, Y) && 0 < B && 0 <= A - D * B
    ensures Bezout(-sign, a, n, B, A - D * B, D * X + Y, X)
  {
    EuclidStep(A, B, D);
    var U, V := X * a, Y * a;
    CongScale(-(sign * U), B, D, n);
    CongAdd(sign * V, A, D * -(sign * U), D * B, n);
    Distribute(a, D * X, Y);
    MulAssoc(D, X, a);
    Signs(sign, (D * X + Y) * a);
    Signs(sign, U);
    Signs(sign * U, D);
    MulAssoc(sign, D, U);
    MulAssoc(D, sign, U);
    Distribute(sign, D * U, V);
    assert -(-sign * ((D * X + Y) * a)) == sign * V - D * -(sign * U);
  }

  /** The subtraction step of the binary algorithm, in either direction. */
  lemma BezoutSubtract(a: int, n: int, A: int, B: int, X: int, Y: int)
    requires Bezout(-1, a, n, A, B, X, Y)
    ensures A <= B ==> Bezout(-1, a, n, A, B - A, X + Y, Y)
    ensures B < A ==> Bezout(-1, a, n, A - B, B, X, Y + X)
  {
    CongAdd(X * a, B, -(Y * a), A, n);
    CongAdd(-(Y * a), A, X * a, B, n);
    Distribute(a, X, Y);
    EuclidStep(B, A, 1);
    EuclidStep(A, B, 1);
    assert SameDivisors(B, A, A, B - A) && SameDivisors(A, B, B, A - B);
    assert forall k | 0 < k :: Dvd(k, B) && Dvd(k, A) <==> Dvd(k, A) && Dvd(k, B);
  }

  lemma HalveProduct(p: int, k: int, x: int, x': int)
    ensures (2 * p) * (k * x') == p * (k * x) + (p * k) * (2 * x' - x)
  {
    var q := p * k;
    MulAssoc(2, p, k * x');
    MulAssoc(p, k, x');
    MulAssoc(p, k, x);
    MulAssoc(q, 2, x');
    Distribute(q, x, 2 * x' - x);
  }

  lemma HalveStep(p: int, k: int, x: int, x': int, b: int, n: int)
    requires 0 < n && Cong(p * (k * x), b, n) && (2 * x' == x || 2 * x' == x + n)
    ensures Cong((2 * p) * (k * x'), b, n)
  {
    hide Cong;
    var q, c := p * k, 2 * x' - x;
    HalveProduct(p, k, x, x');
    CongIntro(c, 0, n, if c == 0 then 0 else 1);
    CongScale(c, 0, q, n);
    CongAdd(p * (k * x), b, q * c, 0, n);
  }

  /** Divide B by its largest power of two, and X by the same power modulo the odd n, keeping
      k * X congruent to B. */
  method HalveOut(B: bignum, X: bignum, n: bignum, ghost k: int) returns (B': bignum, X': bignum, ghost e: nat)
    requires 0 < Mag(B) && Mag(n) % 2 == 1 && !X.neg && Cong(k * Mag(X), Mag(B), Mag(n))
    ensures Mag(B) == Pow2(e) * Mag(B') && Mag(B') % 2 == 1
    ensures !X'.neg && Cong(k * Mag(X'), Mag(B'), Mag(n))
  {
    hide Num, Shl, Pow2, Shr, Cong, Fixed;
    var shift := 0;
    X' := X;
    ShrZero(Mag(B));
    ghost var b, N := Mag(B), Mag(n);
    Pow2Zero();
    var bit := IsBitSet(B, shift);
    while !bit
      invariant b == Pow2(shift) * Shr(b, shift) && bit == (Shr(b, shift) % 2 == 1)
      invariant !X'.neg && Cong(Pow2(shift) * (k * Mag(X')), b, N)
      decreases Shr(b, shift)
    {
      ghost var x, s := Mag(X'), shift;
      NotBitSet(b, s);
      shift := shift + 1;
      OddMag(X');
      if IsOdd(X') { X' := UAdd(X', n); }
      X' := RShift1(X');
      HalveStep(Pow2(s), k, x, Mag(X'), b, N);
      bit := IsBitSet(B, shift);
    }
    e := shift;
    B' := B;
    if shift > 0 { B' := RShift(B, shift); }
    CancelShift(k * Mag(X'), Mag(B'), e, N);
  }

  lemma NotBitSet(b: nat, s: nat)
    requires 0 < b == Pow2(s) * Shr(b, s) && Shr(b, s) % 2 == 0
    ensures b == Pow2(s + 1) * Shr(b, s + 1) && Shr(b, s + 1) < Shr(b, s)
    ensures Pow2(s + 1) == 2 * Pow2(s)
  {
    hide Shr;
    ShrStep(b, s);
    MulAssoc(2, Pow2(s), Shr(b, s + 1));
    MulAssoc(Pow2(s), 2, Shr(b, s + 1));
  }

  lemma CancelShift(x: int, y: int, e: nat, n: int)
    requires 0 < n && n % 2 == 1 && Cong(Pow2(e) * x, Pow2(e) * y, n)
    ensures Cong(x, y, n)
  {
    hide Cong;
    var p: int := Pow2(e);
    SameIsCong(p * y, n);
    CongAdd(p * x, p * y, p * y, p * y, n);
    Distribute(p, x, -y);
    Signs(p, y);
    CancelPow2(x - y, e, n);
    SameIsCong(y, n);
    CongAdd(x - y, 0, y, y, n);
  }

  /** The binary loop of BN_mod_inverse, for odd n. */
  method BinaryInverse(a: bignum, n: bignum, B0: bignum) returns (A: bignum, Y: bignum)
    requires Mag(n) % 2 == 1 && Bezout(-1, Int(a), Mag(n), Mag(n), Mag(B0), 1, 0)
    ensures !Y.neg && Bezout(-1, Int(a), Mag(n), Mag(A), 0, 0, Mag(Y)) && !A.neg
  {
    hide Num, Shl, Bezout, Cong, Pow2, SameDivisors, Fixed;
    A, Y := n.(neg := false), Zero();
    var B: bignum := B0.(neg := false);
    var X := SetWord(1);
    NumNil([], 0);
    while !IsZero(B)
      invariant !X.neg && !Y.neg && !A.neg && !B.neg
      invariant Bezout(-1, Int(a), Mag(n), Mag(A), Mag(B), Mag(X), Mag(Y))
      decreases Mag(A) + Mag(B)
    {
      ZeroMag(B);
      BezoutParts(Int(a), Mag(n), Mag(A), Mag(B), Mag(X), Mag(Y));
      var B1, X1, e := HalveOut(B, X, n, Int(a));
      var A1, Y1, f := HalveOut(A, Y, n, -Int(a));
      BezoutHalved(Int(a), Mag(n), Mag(A), Mag(B), e, f, Mag(A1), Mag(B1), Mag(X1), Mag(Y1));
      Smaller(Mag(A), f, Mag(A1));
      Smaller(Mag(B), e, Mag(B1));
      BezoutSubtract(Int(a), Mag(n), Mag(A1), Mag(B1), Mag(X1), Mag(Y1));
      var c := UCmp(B1, A1);
      A, Y, B, X := A1, Y1, B1, X1;
      if c >= 0 {
        X := UAdd(X, Y);
        B := USub(B, A);
      } else {
        Y := UAdd(Y, X);
        A := USub(A, B);
      }
      A, B := A.(neg := false), B.(neg := false);
    }
    ZeroMag(B);
    BezoutDone(-1, Int(a), Mag(n), Mag(A), Mag(X), Mag(Y));
  }

  lemma Smaller(x: nat, e: nat, y: nat)
    requires x == Pow2(e) * y
    ensures y <= x
  {
    MulLe(1, Pow2(e), y);
  }

  lemma BezoutParts(a: int, n: int, A: int, B: int, X: int, Y: int)
    requires Bezout(-1, a, n, A, B, X, Y)
    ensures 0 < n && 0 < A && 0 <= B && Cong(a * X, B, n) && Cong(-a * Y, A, n)
    ensures SameDivisors(A, B, a, n)
  {
    Signs(a, Y);
  }

  lemma BezoutHalved(a: int, n: int, A: int, B: int, e: nat, f: nat, A1: int, B1: int, X1: int, Y1: int)
    requires 0 < n && n % 2 == 1 && SameDivisors(A, B, a, n) && A == Pow2(f) * A1 && B == Pow2(e) * B1
    requires 0 < A1 && 0 <= B1 && Cong(a * X1, B1, n) && Cong(-a * Y1, A1, n)
    ensures Bezout(-1, a, n, A1, B1, X1, Y1)
  {
    RemoveTwos(A, B1, e, a, n);
    SameSwap(A, B1, a, n);
    RemoveTwos(B1, A1, f, a, n);
    SameSwap(B1, A1, a, n);
    Signs(a, Y1);
  }

  lemma SameSwap(a: int, b: int, c: int, d: int)
    requires SameDivisors(a, b, c, d)
    ensures SameDivisors(b, a, c, d)
  {
  }

  lemma BezoutDone(sign: int, a: int, n: int, A: int, X: int, Y: int)
    requires Bezout(sign, a, n, A, 0, X, Y)
    ensures Bezout(sign, a, n, A, 0, 0, Y)
  {
    CongIntro(0, 0, n, 0);
  }

  /** Quotient and remainder as the general loop computes them: by bit lengths when the quotient
      is 1, 2 or 3, otherwise by BN_div. */
  method SmallQuotient(A: bignum, B: bignum) returns (D: bignum, M: bignum)
    requires !A.neg && !B.neg && 0 < Mag(B) <= Mag(A)
    ensures !D.neg && !M.neg && Mag(A) == Mag(D) * Mag(B) + Mag(M) && Mag(M) < Mag(B)
  {
    hide Num, Shl, Pow2, Fixed;
    var i := NumBits(A);
    var j := NumBits(B);
    if i == j {
      SameBits(Mag(A), Mag(B), i, j);
      D := SetWord(1);
      M := Sub(A, B);
    } else if i == j + 1 {
      SameBits(Mag(A), Mag(B), i, j);
      var T := LShift1(B);
      var c := UCmp(A, T);
      if c < 0 {
        D := SetWord(1);
        M := Sub(A, B);
      } else {
        M := Sub(A, T);
        D := Add(T, B);
        c := UCmp(A, D);
        if c < 0 {
          D := SetWord(2);
        } else {
          D := SetWord(3);
          M := Sub(M, B);
        }
      }
    } else {
      var ok;
      ok, D, M := Div(A, B);
      NonnegQuotient(A, B, D, M);
    }
  }

  lemma SameBits(x: nat, y: nat, i: nat, j: nat)
    requires 0 < y && BitLength(x, i) && BitLength(y, j)
    ensures i == j ==> x < 2 * y
    ensures i == j + 1 ==> x < 4 * y
  {
  }

  lemma NonnegQuotient(A: bignum, B: bignum, D: bignum, M: bignum)
    requires !A.neg && !B.neg && Divides(A, B, D, M)
    ensures !D.neg && !M.neg && Mag(A) == Mag(D) * Mag(B) + Mag(M) && Mag(M) < Mag(B)
  {
  }

  /** D * X + Y, with the short cuts for small D. */
  method MultiplyAdd(D: bignum, X: bignum, Y: bignum) returns (r: bignum)
    requires !D.neg && !X.neg && !Y.neg
    ensures !r.neg && Mag(r) == Mag(D) * Mag(X) + Mag(Y)
  {
    hide Num, Shl, Fixed;
    if IsOne(D) {
      OneMag(D);
      r := Add(X, Y);
    } else {
      if D.d == [2] {
        WordMag(D);
        r := LShift1(X);
      } else if D.d == [4] {
        WordMag(D);
        r := LShift(X, 2);
      } else if |D.d| == 1 {
        WordMag(D);
        r := MulWord(X, D.d[0]);
      } else {
        r := Mul(D, X);
      }
      r := Add(r, Y);
    }
  }

  /** The general loop of BN_mod_inverse. */
  method GeneralInverse(a: bignum, n: bignum, B0: bignum) returns (A: bignum, Y: bignum, sign: int)
    requires Bezout(-1, Int(a), Mag(n), Mag(n), Mag(B0), 1, 0) && Mag(B0) <= Mag(n)
    ensures !A.neg && !Y.neg && Bezout(sign, Int(a), Mag(n), Mag(A), 0, 0, Mag(Y))
  {
    hide Num, Shl, Bezout, Cong, Pow2, SameDivisors, Fixed;
    A, Y, sign := n.(neg := false), Zero(), -1;
    var B: bignum := B0.(neg := false);
    var X := SetWord(1);
    NumNil([], 0);
    while !IsZero(B)
      invariant !X.neg && !Y.neg && !A.neg && !B.neg && Mag(B) <= Mag(A)
      invariant Bezout(sign, Int(a), Mag(n), Mag(A), Mag(B), Mag(X), Mag(Y))
      decreases Mag(B)
    {
      ZeroMag(B);
      var D, M := SmallQuotient(A, B);
      BezoutDivide(sign, Int(a), Mag(n), Mag(A), Mag(B), Mag(X), Mag(Y), Mag(D));
      A, B := B, M;
      var tmp := MultiplyAdd(D, X, Y);
      Y := X;
      X := tmp;
      sign := -sign;
    }
    ZeroMag(B);
    BezoutDone(sign, Int(a), Mag(n), Mag(A), Mag(X), Mag(Y));
  }

  /** BN_mod_inverse: an inverse of a modulo |n| is found exactly when there is one. */
  method ModInverse(a: bignum, n: bignum) returns (ok: bool, R: bignum)
    ensures ok <==> Mag(n) > 0 && Coprime(Int(a), Mag(n))
    ensures ok ==> !R.neg && Mag(R) < Mag(n) && Cong(Int(a) * Mag(R), 1, Mag(n))
  {
    hide Num, Shl, Bezout, Cong, Pow2, SameDivisors, Fixed, Coprime;
    var B: bignum := a;
    var c := UCmp(B, n);
    R := Zero();
    if B.neg || c >= 0 {
      ZeroMag(n);
      if IsZero(n) { return false, R; }
      B := NNMod(B, n.(neg := false));
    } else {
      SameIsCong(Int(a), Mag(n));
    }
    BezoutStart(Int(a), Mag(n), Mag(B));
    var A, Y, sign := B, B, -1;
    var bits := NumBits(n);
    OddMag(n);
    if IsOdd(n) && bits <= 2048 {
      A, Y := BinaryInverse(a, n, B);
    } else {
      A, Y, sign := GeneralInverse(a, n, B);
    }
    BezoutEnd(sign, Int(a), Mag(n), Mag(A), Mag(Y));
    ghost var Y0 := Int(Y);
    if sign < 0 {
      Y := Sub(n, Y);
    }
    LastSign(sign, Int(a), n, Mag(A), Y0, Int(Y));
    OneMag(A);
    ok := IsOne(A);
    if ok {
      c := UCmp(Y, n);
      if !Y.neg && c < 0 {
        R := Y;
      } else {
        R := NNMod(Y, n);
        Residue(Int(a), Mag(R), Int(Y), Mag(n));
      }
    }
  }

  lemma BezoutEnd(sign: int, a: int, n: int, A: int, Y: int)
    requires Bezout(sign, a, n, A, 0, 0, Y)
    ensures 0 < n && 0 < A && Cong(sign * (Y * a), A, n)
    ensures A == 1 <==> Coprime(a, n)
    ensures sign == 1 || sign == -1
  {
    GcdOfZero(A, a, n);
  }

  /** The final change of sign, which subtracts from n and not from |n|. */
  lemma LastSign(sign: int, a: int, n: bignum, A: int, Y0: int, Y: int)
    requires 0 < Mag(n) && (sign == 1 || sign == -1) && Cong(sign * (Y0 * a), A, Mag(n))
    requires Y == if sign < 0 then Int(n) - Y0 else Y0
    ensures Cong(a * Y, A, Mag(n))
  {
    hide Cong, Num;
    if sign < 0 {
      SignTurned(a, Int(n), Mag(n), Y0);
      CongIntro(a * Int(n), 0, Mag(n), if n.neg then -a else a);
      CongAdd(a * Int(n), 0, -(Y0 * a), A, Mag(n));
    }
  }

  lemma SignTurned(a: int, n: int, N: int, Y: int)
    requires n == N || n == -N
    ensures a * n == (if n == N then a else -a) * N && a * (n - Y) == a * n - Y * a && -1 * (Y * a) == -(Y * a)
  {
    Distribute(a, n, -Y);
    Signs(a, Y);
    Signs(a, N);
  }

  lemma Residue(a: int, r: int, y: int, n: int)
    requires 0 < n && Cong(r, y, n) && Cong(a * y, 1, n)
    ensures Cong(a * r, 1, n)
  {
    CongScale(r, y, a, n);
  }

  // ---------- BN_gcd ----------

  /** A greatest common divisor of (a, b), times p, is one of (A, B). */
  ghost predicate Reduces(A: int, B: int, p: int, a: int, b: int)
  {
    forall g | IsGcd(g, a, b) :: IsGcd(g * p, A, B)
  }

  lemma DvdDouble(k: int, x: int)
    requires 0 < k
    ensures k % 2 == 0 ==> (Dvd(k, 2 * x) <==> Dvd(k / 2, x))
    ensures k % 2 == 1 ==> (Dvd(k, 2 * x) <==> Dvd(k, x))
  {
    if k % 2 == 1 {
      if Dvd(k, x) { DvdScale(k, x, 2); }
      if Dvd(k, 2 * x) { CancelTwo(x, k); }
    } else {
      if Dvd(k, 2 * x) {
        var q := CongElim(2 * x, 0, k);
        MulAssoc(q, k / 2, 2);
        CongIntro(x, 0, k / 2, q);
      }
      if Dvd(k / 2, x) {
        var q := CongElim(x, 0, k / 2);
        MulAssoc(q, k / 2, 2);
        CongIntro(2 * x, 0, k, q);
      }
    }
  }

  lemma BothEven(A: int, B: int, p: int, a: int, b: int)
    requires Reduces(A, B, p, 2 * a, 2 * b)
    ensures Reduces(A, B, 2 * p, a, b)
  {
    hide Dvd;
    forall g | IsGcd(g, a, b)
      ensures IsGcd(g * (2 * p), A, B)
    {
      forall k | 0 < k
        ensures Dvd(k, 2 * g) <==> Dvd(k, 2 * a) && Dvd(k, 2 * b)
      {
        DvdDouble(k, g);
        DvdDouble(k, a);
        DvdDouble(k, b);
      }
      assert IsGcd(2 * g, 2 * a, 2 * b);
      MulAssoc(g, 2, p);
    }
  }

  /** A factor 2 of one number is dropped when the other one is odd. */
  lemma OneEven(A: int, B: int, p: int, a: int, b: int)
    requires b % 2 == 1 && Reduces(A, B, p, 2 * a, b)
    ensures Reduces(A, B, p, a, b)
  {
    forall g | IsGcd(g, a, b)
      ensures IsGcd(g * p, A, B)
    {
      forall k | 0 < k
        ensures Dvd(k, g) <==> Dvd(k, 2 * a) && Dvd(k, b)
      {
        if Dvd(k, b) {
          DvdOdd(k, b);
          DvdDouble(k, a);
        }
      }
      assert IsGcd(g, 2 * a, b);
    }
  }

  lemma ReducesSwap(A: int, B: int, p: int, a: int, b: int)
    requires Reduces(A, B, p, a, b)
    ensures Reduces(A, B, p, b, a)
  {
    forall g | IsGcd(g, b, a)
      ensures IsGcd(g * p, A, B)
    {
      assert IsGcd(g, a, b);
    }
  }

  lemma ReducesSubtract(A: int, B: int, p: int, a: int, b: int)
    requires Reduces(A, B, p, a, b)
    ensures Reduces(A, B, p, a - b, b)
  {
    EuclidStep(a, b, 1);
    forall g | IsGcd(g, a - b, b)
      ensures IsGcd(g * p, A, B)
    {
      assert IsGcd(g, a, b);
    }
  }

  lemma ReducesStart(A: int, B: int)
    ensures Reduces(A, B, 1, A, B)
  {
  }

  lemma ReducesDone(A: int, B: int, p: int, a: int)
    requires 0 <= a && Reduces(A, B, p, a, 0)
    ensures IsGcd(a * p, A, B)
  {
    forall k | 0 < k
      ensures Dvd(k, a) <==> Dvd(k, a) && Dvd(k, 0)
    {
      DvdSelf(k);
    }
    assert IsGcd(a, a, 0);
  }

  /** euclid: the binary algorithm, for 0 <= b <= a. */
  method Euclid(a0: bignum, b0: bignum) returns (a: bignum)
    requires !a0.neg && !b0.neg && Mag(b0) <= Mag(a0)
    ensures !a.neg && IsGcd(Mag(a), Mag(a0), Mag(b0))
  {
    hide Num, Shl, Pow2, IsGcd, Reduces, Fixed;
    a := a0;
    var b, shifts := b0, 0;
    Pow2Zero();
    ghost var A, B := Mag(a0), Mag(b0);
    ReducesStart(A, B);
    while !IsZero(b)
      invariant !a.neg && !b.neg && Mag(b) <= Mag(a)
      invariant Reduces(A, B, Pow2(shifts), Mag(a), Mag(b))
      decreases Mag(a) + Mag(b)
    {
      ZeroMag(b);
      var s;
      a, b, s := EuclidReduce(a, b, A, B, Pow2(shifts));
      if s {
        Pow2Double(shifts);
        shifts := shifts + 1;
      }
    }
    ZeroMag(b);
    ReducesDone(A, B, Pow2(shifts), Mag(a));
    if shifts != 0 {
      a := LShift(a, shifts);
    }
  }

  /** One round of euclid; s says that both numbers lost a factor 2. */
  method EuclidReduce(a: bignum, b: bignum, ghost A: int, ghost B: int, ghost p: int) returns (a': bignum, b': bignum, s: bool)
    requires !a.neg && !b.neg && 0 < Mag(b) <= Mag(a) && Reduces(A, B, p, Mag(a), Mag(b))
    ensures !a'.neg && !b'.neg && Mag(b') <= Mag(a') && Mag(a') + Mag(b') < Mag(a) + Mag(b)
    ensures Reduces(A, B, if s then 2 * p else p, Mag(a'), Mag(b'))
  {
    hide Num, Shl, Reduces, Fixed;
    OddMag(a);
    OddMag(b);
    a', b', s := a, b, false;
    ReducesSwap(A, B, p, Mag(a), Mag(b));
    if IsOdd(a) {
      if IsOdd(b) {
        ReducesSubtract(A, B, p, Mag(a), Mag(b));
        a' := Sub(a, b);
        a' := RShift1(a');
        OneEven(A, B, p, Mag(a'), Mag(b));
        a', b' := Order(a', b', A, B, p);
      } else {
        b' := RShift1(b);
        OneEven(A, B, p, Mag(b'), Mag(a));
        ReducesSwap(A, B, p, Mag(b'), Mag(a));
        a', b' := Order(a', b', A, B, p);
      }
    } else {
      if IsOdd(b) {
        a' := RShift1(a);
        OneEven(A, B, p, Mag(a'), Mag(b));
        a', b' := Order(a', b', A, B, p);
      } else {
        a' := RShift1(a);
        b' := RShift1(b);
        s := true;
        BothEven(A, B, p, Mag(a'), Mag(b'));
      }
    }
  }

  method Order(a: bignum, b: bignum, ghost A: int, ghost B: int, ghost p: int) returns (a': bignum, b': bignum)
    requires !a.neg && !b.neg && Reduces(A, B, p, Mag(a), Mag(b))
    ensures !a'.neg && !b'.neg && Mag(b') <= Mag(a') && Mag(a') + Mag(b') == Mag(a) + Mag(b)
    ensures Reduces(A, B, p, Mag(a'), Mag(b'))
  {
    hide Num, Shl, Reduces, Fixed;
    var c := UCmp(a, b);
    if c < 0 {
      ReducesSwap(A, B, p, Mag(a), Mag(b));
      return b, a;
    }
    return a, b;
  }

  /** BN_gcd, for any signs. */
  method Gcd(in_a: bignum, in_b: bignum) returns (r: bignum)
    ensures !r.neg && IsGcd(Mag(r), Mag(in_a), Mag(in_b))
  {
    hide Num, Shl, Fixed, Dvd;
    var a: bignum, b: bignum := in_a.(neg := false), in_b.(neg := false);
    var c := UCmp(a, b);
    if c < 0 {
      r := Euclid(b, a);
    } else {
      r := Euclid(a, b);
    }
  }
}
