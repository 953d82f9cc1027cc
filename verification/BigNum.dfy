/** BIGNUM values, their comparison, and addition and subtraction: bn_lib.c and bn_add.c.
    The BIGNUM that a C routine writes through its result pointer is the returned value here; the
    words are produced in a freshly allocated array, as bn_wexpand does. */
module BigNum {
  import opened Limbs
  import opened Words

  datatype BN = BN(d: seq<word>, neg: bool)

  /** A BIGNUM after bn_fix_top.  A negative zero is a possible value, as it is in C. */
  type bignum = b: BN | Fixed(b.d) witness BN([], false)

  function Mag(b: bignum): nat
  {
    Val(b.d)
  }

  function Int(b: bignum): int
  {
    var m: int := Mag(b);
    if b.neg then -m else m
  }

  predicate IsZero(b: bignum)
  {
    b.d == []
  }

  predicate IsOdd(b: bignum)
  {
    |b.d| > 0 && b.d[0] % 2 == 1
  }

  /** BN_is_one (openssl/bn.h). */
  predicate IsOne(b: bignum)
  {
    b.d == [1] && !b.neg
  }

  function Zero(): bignum { BN([], false) }

  lemma ZeroMag(b: bignum)
    ensures IsZero(b) <==> Mag(b) == 0
    ensures IsZero(b) <==> Int(b) == 0
  {
    FixedLength(b.d, 0);
  }

  lemma OddMag(b: bignum)
    ensures IsOdd(b) <==> Mag(b) % 2 == 1
  {
    if |b.d| > 0 { NumFront(b.d, 0, |b.d|); }
  }

  lemma OneMag(b: bignum)
    ensures Mag(b) == 1 <==> b.d == [1]
  {
    BPowNext(0);
    FixedLength(b.d, 1);
    FixedLength(b.d, 0);
    if |b.d| == 1 { NumFront(b.d, 0, 1); }
  }

  /** BN_set_word. */
  method SetWord(w: word) returns (r: bignum)
    ensures !r.neg && Mag(r) == w
  {
    if w == 0 { return BN([], false); }
    r := BN([w], false);
    NumFront([w], 0, 1);
  }

  // ---------- memory set-up ----------

  /** k clear result words followed by the operands, in one block of memory. */
  method Layout(k: nat, a: seq<word>, b: seq<word>) returns (mem: array<word>)
    ensures fresh(mem) && mem.Length == k + |a| + |b|
    ensures forall i | 0 <= i < k :: mem[i] == 0
    ensures forall i | k <= i < k + |a| :: mem[i] == a[i - k]
    ensures forall i | k + |a| <= i < k + |a| + |b| :: mem[i] == b[i - k - |a|]
    ensures Num(mem[..], k, |a|) == Val(a) && Num(mem[..], k + |a|, |b|) == Val(b)
  {
    mem := new word[k + |a| + |b|](i => if i < k then 0 else
                                        if k <= i < k + |a| then a[i - k] else
                                        if k + |a| <= i < k + |a| + |b| then b[i - k - |a|] else 0);
    NumSame(mem[..], k, a, 0, |a|);
    NumSame(mem[..], k + |a|, b, 0, |b|);
  }

  /** The number left in the first n words of memory, without leading zeros. */
  method Store(mem: array<word>, p: nat, n: nat, neg: bool) returns (r: bignum)
    requires p + n <= mem.Length
    ensures Mag(r) == Num(mem[..], p, n) && r.neg == neg
  {
    var d := FixTop(mem[p..p + n]);
    ValSlice(mem[..], p, n);
    r := BN(d, neg);
  }

  // ---------- comparison (bn_lib.c) ----------

  /** BN_ucmp: the sign of |a| - |b|. */
  method UCmp(a: bignum, b: bignum) returns (r: int)
    ensures r < 0 <==> Mag(a) < Mag(b)
    ensures r == 0 <==> Mag(a) == Mag(b)
  {
    hide Num, Shl;
    r := |a.d| - |b.d|;
    FixedLength(a.d, |b.d|);
    FixedLength(b.d, |b.d|);
    FixedLength(b.d, |a.d|);
    FixedLength(a.d, |a.d|);
    if r != 0 { return; }
    var i := |a.d|;
    while i > 0
      invariant 0 <= i <= |a.d|
      invariant Mag(a) - Mag(b) == Num(a.d, 0, i) - Num(b.d, 0, i)
    {
      i := i - 1;
      if a.d[i] != b.d[i] {
        TopWordDecides(a.d, 0, b.d, 0, i);
        return if a.d[i] > b.d[i] then 1 else -1;
      }
      NumSnoc(a.d, 0, i);
      NumSnoc(b.d, 0, i);
    }
    NumNil(a.d, 0);
    NumNil(b.d, 0);
    r := 0;
  }

  // ---------- addition and subtraction (bn_add.c) ----------

  /** BN_uadd: |a| + |b|. */
  method UAdd(a: bignum, b: bignum) returns (r: bignum)
    ensures Mag(r) == Mag(a) + Mag(b) && !r.neg
  {
    if |a.d| < |b.d| {
      r := UAddLong(b, a);
    } else {
      r := UAddLong(a, b);
    }
  }

  method UAddLong(a: bignum, b: bignum) returns (r: bignum)
    requires |b.d| <= |a.d|
    ensures Mag(r) == Mag(a) + Mag(b) && !r.neg
  {
    hide Num, Shl;
    var max, min := |a.d|, |b.d|;
    var mem := Layout(max + 1, a.d, b.d);
    NumSame(mem[..], max + 1, a.d, 0, min);
    var carry := AddWords(mem, 0, max + 1, max + 1 + max, min);
    carry := CarryUp(mem, a.d, min, carry, Val(b.d));
    ghost var m1 := mem[..];
    mem[max] := carry;
    NumSame(m1, 0, mem[..], 0, max);
    NumSnoc(mem[..], 0, max);
    r := Store(mem, 0, max + 1, false);
  }

  /** The words above those that were added, with the carry. */
  method CarryUp(mem: array<word>, a: seq<word>, min: nat, carry0: word, ghost sum: int) returns (carry: word)
    requires min <= |a| < mem.Length && carry0 <= 1 && Num(mem[..], 0, min) + Shl(min, carry0) == Num(a, 0, min) + sum
    modifies mem
    ensures carry <= 1 && Num(mem[..], 0, |a|) + Shl(|a|, carry) == Num(a, 0, |a|) + sum
  {
    hide Num, Shl;
    carry := carry0;
    var i := min;
    while i < |a|
      invariant min <= i <= |a| && carry <= 1
      invariant Num(mem[..], 0, i) + Shl(i, carry) == Num(a, 0, i) + sum
    {
      ghost var m1 := mem[..];
      ghost var c := carry;
      var t1 := a[i];
      if carry != 0 {
        var x := (t1 + 1) % BASE;
        mem[i] := x;
        if x >= t1 { carry := 0; }
      } else {
        mem[i] := t1;
      }
      NumSame(m1, 0, mem[..], 0, i);
      NumSnoc(mem[..], 0, i);
      NumSnoc(a, 0, i);
      AddColumn(i, c, t1, 0, mem[i], carry);
      ShlZero(i);
      i := i + 1;
    }
  }

  /** BN_usub: |a| - |b|, for |a| >= |b|. */
  method USub(a: bignum, b: bignum) returns (r: bignum)
    requires Mag(b) <= Mag(a)
    ensures Mag(r) == Mag(a) - Mag(b) && !r.neg
  {
    hide Num, Shl;
    FixedLength(b.d, |a.d|);
    NumBound(a.d, 0, |a.d|);
    var max, min := |a.d|, |b.d|;
    var d := new word[max](_ => 0);
    var carry: word := 0;
    var i := 0;
    NumNil(a.d, 0);
    NumNil(b.d, 0);
    NumNil(d[..], 0);
    ShlZero(0);
    while i < min
      invariant 0 <= i <= min && carry <= 1
      invariant Num(d[..], 0, i) + Num(b.d, 0, i) == Num(a.d, 0, i) + Shl(i, carry)
    {
      ghost var m1 := d[..];
      ghost var c := carry;
      var t1, t2 := a.d[i], b.d[i];
      if carry != 0 {
        carry := if t1 <= t2 then 1 else 0;
        d[i] := (t1 - t2 - 1) % BASE;
      } else {
        carry := if t1 < t2 then 1 else 0;
        d[i] := (t1 - t2) % BASE;
      }
      NumSame(m1, 0, d[..], 0, i);
      NumSnoc(d[..], 0, i);
      NumSnoc(a.d, 0, i);
      NumSnoc(b.d, 0, i);
      AddColumn(i, c, t2, d[i], t1, carry);
      i := i + 1;
    }
    carry := PropagateBorrow(d, a, min, carry, Val(b.d));
    // a borrow left over would make the difference negative
    NumBound(d[..], 0, max);
    ShlZero(max);
    ShlLess(max, 0, carry);
    ShlLess(max, carry, 1);
    r := Store(d, 0, max, false);
  }

  /** The second half of BN_usub: words of a beyond the end of the subtrahend x. */
  method PropagateBorrow(d: array<word>, a: bignum, min: nat, carry: word, ghost x: int) returns (c: word)
    requires min <= |a.d| == d.Length && carry <= 1
    requires Num(d[..], 0, min) + x == Num(a.d, 0, min) + Shl(min, carry)
    modifies d
    ensures c <= 1 && Num(d[..], 0, |a.d|) + x == Val(a.d) + Shl(|a.d|, c)
  {
    hide Num, Shl;
    c := carry;
    var i := min;
    while i < |a.d|
      invariant min <= i <= |a.d| && c <= 1
      invariant Num(d[..], 0, i) + x == Num(a.d, 0, i) + Shl(i, c)
    {
      ghost var m1 := d[..];
      ghost var c0 := c;
      var t1 := a.d[i];
      if c != 0 {
        var t2 := (t1 - 1) % BASE;
        d[i] := t2;
        if t1 > t2 { c := 0; }
      } else {
        d[i] := t1;
      }
      NumSame(m1, 0, d[..], 0, i);
      NumSnoc(d[..], 0, i);
      NumSnoc(a.d, 0, i);
      AddColumn(i, c0, 0, d[i], t1, c);
      ShlZero(i);
      i := i + 1;
    }
  }

  /** BN_add. */
  method Add(a: bignum, b: bignum) returns (r: bignum)
    ensures Int(r) == Int(a) + Int(b)
    ensures !a.neg && !b.neg ==> !r.neg
  {
    if a.neg != b.neg {
      var x, y := if a.neg then b else a, if a.neg then a else b;
      var c := UCmp(x, y);
      if c < 0 {
        r := USub(y, x);
        r := r.(neg := true);
      } else {
        r := USub(x, y);
      }
    } else {
      r := UAdd(a, b);
      r := r.(neg := a.neg);
    }
  }

  /** BN_sub. */
  method Sub(a: bignum, b: bignum) returns (r: bignum)
    ensures Int(r) == Int(a) - Int(b)
    ensures !a.neg && !b.neg ==> (r.neg <==> Int(a) < Int(b))
  {
    if a.neg != b.neg {
      r := UAdd(a, b);
      r := r.(neg := a.neg);
    } else {
      var x, y := if a.neg then b else a, if a.neg then a else b;
      var c := UCmp(x, y);
      if c < 0 {
        r := USub(y, x);
        r := r.(neg := true);
      } else {
        r := USub(x, y);
      }
    }
  }

  lemma WordMag(D: bignum)
    requires |D.d| == 1
    ensures Mag(D) == D.d[0]
  {
    NumFront(D.d, 0, 1);
    NumNil(D.d, 1);
  }
}
