/** Products of BIGNUMs (BN_mul, BN_sqr) and arithmetic with a single word (bn_word.c). */
module Product {
  import opened Arith
  import opened Limbs
  import opened Words
  import opened Multiply
  import opened BigNum

  /** BN_mul: Karatsuba when both operands have the same power-of-two number of words. */
  method Mul(a: bignum, b: bignum) returns (r: bignum)
    ensures Int(r) == Int(a) * Int(b)
    ensures Mag(r) == Mag(a) * Mag(b)
    ensures r.neg == (a.neg != b.neg && Mag(a) != 0 && Mag(b) != 0)
  {
    hide Num, Shl;
    ZeroMag(a);
    ZeroMag(b);
    var al, bl := |a.d|, |b.d|;
    if al == 0 || bl == 0 {
      NumNil([], 0);
      return BN([], false);
    }
    var neg := a.neg != b.neg;
    SignedProduct(a, b);
    if al >= RECURSIVE_SIZE && al == bl && PowerOfTwo(al) {
      var mem := Layout(6 * al, a.d, b.d);
      MulRecursive(mem, 0, 6 * al, 7 * al, al, 2 * al);
      r := Store(mem, 0, 2 * al, neg);
    } else {
      var mem := Layout(al + bl, a.d, b.d);
      MulNormal(mem, 0, al + bl, al, al + bl + al, bl);
      r := Store(mem, 0, al + bl, neg);
    }
  }

  lemma SignedProduct(a: bignum, b: bignum)
    ensures Int(a) * Int(b) == (if a.neg != b.neg then -(Mag(a) * Mag(b)) else Mag(a) * Mag(b)) as int
  {
    Signs(Mag(a), Mag(b));
  }

  /** BN_sqr. */
  method Sqr(a: bignum) returns (r: bignum)
    ensures Mag(r) == Mag(a) * Mag(a) && !r.neg
  {
    hide Num, Shl;
    ZeroMag(a);
    var al := |a.d|;
    if al == 0 {
      NumNil([], 0);
      return BN([], false);
    }
    var mem := Layout(6 * al, a.d, []);
    if al >= RECURSIVE_SIZE && PowerOfTwo(al) {
      SqrRecursive(mem, 0, 6 * al, al, 2 * al);
    } else {
      SqrNormal(mem, 0, 6 * al, al, 2 * al);
    }
    r := Store(mem, 0, 2 * al, false);
  }

  /** BN_mul_word. */
  method MulWord(a: bignum, w: word) returns (r: bignum)
    ensures Mag(r) == Mag(a) * w && (r.neg ==> a.neg)
  {
    hide Num, Shl;
    ZeroMag(a);
    if |a.d| == 0 { return a; }
    if w == 0 {
      NumNil([], 0);
      return BN([], false);
    }
    var top := |a.d|;
    var mem := Layout(0, a.d, [0]);
    var ll := MulWords(mem, 0, 0, top, w);
    ghost var m1 := mem[..];
    mem[top] := ll;
    NumSame(m1, 0, mem[..], 0, top);
    NumSnoc(mem[..], 0, top);
    r := Store(mem, 0, top + 1, a.neg);
  }

  /** The result of adding x to a.  Only zero and the zero word give a zero top word, which is no BIGNUM
      after bn_fix_top. */
  ghost predicate WordSum(r: BN, a: bignum, x: int)
  {
    if a.d == [] && x == 0 then r.d == [0] else Fixed(r.d) && Int(r) == Int(a) + x
  }

  /** BN_add_word. */
  method AddWord(a: bignum, w: word) returns (r: BN)
    ensures WordSum(r, a, w)
    ensures !a.neg ==> !r.neg
    decreases if a.neg then 2 else 0
  {
    hide Num, Shl;
    if a.neg {
      r := SubWord(a.(neg := false), w);
      if r.d != [] && r.d != [0] { r := r.(neg := !r.neg); }
      if Fixed(r.d) { ZeroMag(r); }
      return;
    }
    if a.d == [] && w == 0 { return BN([0], false); }
    var top := |a.d|;
    var mem := Layout(0, a.d, [0]);
    NumZeros(mem[..], top, 1);
    NumSplit(mem[..], 0, top, 1);
    ShlZero(top);
    NumBound(a.d, 0, top);
    BPowNext(top);
    BPowNext(0);
    NumNil(a.d, 0);
    RippleAdd(mem, 0, top + 1, w);
    r := Store(mem, 0, top + 1, false);
  }

  /** BN_sub_word. */
  method SubWord(a: bignum, w: word) returns (r: BN)
    ensures WordSum(r, a, -(w as int))
    decreases 1
  {
    hide Num, Shl;
    if IsZero(a) || a.neg {
      r := AddWord(a.(neg := false), w);
      ZeroMag(a);
      return r.(neg := true);
    }
    if |a.d| == 1 && a.d[0] < w {
      var x: word := w - a.d[0];
      r := BN([x], true);
      NumFront(a.d, 0, 1);
      NumFront([x], 0, 1);
      NumNil(a.d, 1);
      NumNil([x], 1);
      return;
    }
    r := Borrow(a, w);
  }

  /** The borrow loop of BN_sub_word. */
  method Borrow(a: bignum, w: word) returns (r: bignum)
    requires |a.d| > 1 || (|a.d| == 1 && w <= a.d[0])
    ensures Mag(r) == Mag(a) - w && !r.neg
  {
    hide Num, Shl;
    var top := |a.d|;
    var d := new word[top](i => if 0 <= i < top then a.d[i] else 0);
    var i := 0;
    var x := w;
    NumSame(d[..], 0, a.d, 0, top);
    ShlWord(w);
    while d[i] < x
      invariant 0 <= i < top && 0 <= x <= w && (i > 0 ==> x == 1)
      invariant d[top - 1] == a.d[top - 1] && (top == 1 ==> i == 0)
      invariant Num(d[..], 0, top) + w == Mag(a) + Shl(i, x)
      decreases top - i
    {
      ghost var m1, x0 := d[..], x;
      d[i] := (d[i] - x) % BASE;
      x := 1;
      NumUpdate(m1, d[..], 0, top, i);
      AddColumn(i, x0, d[i], 0, m1[i], 1);
      ShlZero(i);
      i := i + 1;
    }
    ghost var m1 := d[..];
    d[i] := d[i] - x;
    NumUpdate(m1, d[..], 0, top, i);
    ShlAdd(i, d[i], x);
    r := Store(d, 0, top, false);
  }
}
