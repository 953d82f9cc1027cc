/** AES key wrap: aes_wrap and aes_unwrap of aes_wrap.c.  The block cipher is any permutation E of
    16-byte blocks with inverse D. */
module KeyWrap {
  import opened Arith

  type byte = bv8
  type BlockFunction = seq<byte> -> seq<byte>

  /** E maps blocks to blocks, and D undoes it. */
  ghost predicate Cipher(E: BlockFunction, D: BlockFunction)
  {
    forall b: seq<byte> | |b| == 16 :: |E(b)| == 16 && D(E(b)) == b
  }

  ghost predicate BlockSize(E: BlockFunction)
  {
    forall b: seq<byte> | |b| == 16 :: |E(b)| == 16
  }

  const IV: seq<byte> := [0xa6, 0xa6, 0xa6, 0xa6, 0xa6, 0xa6, 0xa6, 0xa6]

  // ---------- the steps ----------

  /** The low byte of t. */
  function Low(t: nat): byte
  {
    (t % 256) as byte
  }

  /** a[7] ^= t, where only the low byte of t counts. */
  function XorLast(a: seq<byte>, t: nat): (r: seq<byte>)
    requires |a| == 8
    ensures |r| == 8
  {
    a[..7] + [a[7] ^ Low(t)]
  }

  lemma XorLastTwice(a: seq<byte>, t: nat)
    requires |a| == 8
    ensures XorLast(XorLast(a, t), t) == a
  {
    var x, y := a[7], Low(t);
    assert (x ^ y) ^ y == x;
  }

  /** Put a in front and the 8-byte group i (counted from 1) in its place. */
  function Store(x: seq<byte>, i: nat, a: seq<byte>, r: seq<byte>): (y: seq<byte>)
    requires 1 <= i && 8 * i + 8 <= |x| && |a| == 8 == |r|
    ensures |y| == |x| && y[..8] == a && y[8 * i..8 * i + 8] == r
  {
    a + x[8..8 * i] + r + x[8 * i + 8..]
  }

  /** The block a step works on: A (with t when unwrapping) and R[i]. */
  function BlockAt(x: seq<byte>, i: nat): (b: seq<byte>)
    requires 1 <= i && 8 * i + 8 <= |x|
    ensures |b| == 16
  {
    x[..8] + x[8 * i..8 * i + 8]
  }

  /** One step: B = E(A | R[i]), A = MSB(B) ^ t, R[i] = LSB(B). */
  function WrapStep(E: BlockFunction, x: seq<byte>, i: nat, t: nat): (y: seq<byte>)
    requires BlockSize(E) && 1 <= i && 8 * i + 8 <= |x|
    ensures |y| == |x|
  {
    var b := E(BlockAt(x, i));
    Store(x, i, XorLast(b[..8], t), b[8..])
  }

  /** The step of aes_unwrap: B = D((A ^ t) | R[i]), A = MSB(B), R[i] = LSB(B). */
  function UnwrapStep(D: BlockFunction, x: seq<byte>, i: nat, t: nat): (y: seq<byte>)
    requires BlockSize(D) && 1 <= i && 8 * i + 8 <= |x|
    ensures |y| == |x|
  {
    var b := D(XorLast(x[..8], t) + x[8 * i..8 * i + 8]);
    Store(x, i, b[..8], b[8..])
  }

  lemma CipherSize(E: BlockFunction, D: BlockFunction)
    requires Cipher(E, D)
    ensures BlockSize(E)
  {
  }

  lemma StepUndone(E: BlockFunction, D: BlockFunction, x: seq<byte>, i: nat, t: nat)
    requires Cipher(E, D) && BlockSize(D) && BlockSize(E) && 1 <= i && 8 * i + 8 <= |x|
    ensures UnwrapStep(D, WrapStep(E, x, i, t), i, t) == x
  {
    var u := BlockAt(x, i);
    var b := E(u);
    var y := WrapStep(E, x, i, t);
    XorLastTwice(b[..8], t);
    assert b[..8] + b[8..] == b;
    assert XorLast(y[..8], t) + y[8 * i..8 * i + 8] == b;
    assert u[..8] == x[..8] && u[8..] == x[8 * i..8 * i + 8];
    StoreBack(x, i, XorLast(b[..8], t), b[8..]);
  }

  lemma StoreBack(x: seq<byte>, i: nat, a: seq<byte>, r: seq<byte>)
    requires 1 <= i && 8 * i + 8 <= |x| && |a| == 8 == |r|
    ensures Store(Store(x, i, a, r), i, x[..8], x[8 * i..8 * i + 8]) == x
  {
    var y := Store(x, i, a, r);
    assert y[8..8 * i] == x[8..8 * i] && y[8 * i + 8..] == x[8 * i + 8..];
    assert x == x[..8] + x[8..8 * i] + x[8 * i..8 * i + 8] + x[8 * i + 8..];
  }

  // ---------- all steps ----------

  /** The group and the counter of step k of 6n. */
  function GroupOf(n: nat, k: nat): (i: nat)
    requires n > 0
    ensures 1 <= i <= n
  {
    k % n + 1
  }

  /** The first k steps of aes_wrap; step k uses the counter k + 1 = n * j + i. */
  function WrapSteps(E: BlockFunction, x: seq<byte>, n: nat, k: nat): (y: seq<byte>)
    requires BlockSize(E) && |x| == 8 * n + 8
    ensures |y| == |x|
  {
    if k == 0 || n == 0 then x else WrapStep(E, WrapSteps(E, x, n, k - 1), GroupOf(n, k - 1), k)
  }

  /** The last k steps of aes_unwrap, which count down. */
  function UnwrapSteps(D: BlockFunction, x: seq<byte>, n: nat, k: nat): (y: seq<byte>)
    requires BlockSize(D) && |x| == 8 * n + 8
    ensures |y| == |x|
    decreases k
  {
    if k == 0 || n == 0 then x else UnwrapSteps(D, UnwrapStep(D, x, GroupOf(n, k - 1), k), n, k - 1)
  }

  lemma {:induction false} StepsUndone(E: BlockFunction, D: BlockFunction, x: seq<byte>, n: nat, k: nat)
    requires Cipher(E, D) && BlockSize(E) && BlockSize(D) && |x| == 8 * n + 8
    ensures UnwrapSteps(D, WrapSteps(E, x, n, k), n, k) == x
  {
    hide Cipher, BlockSize, WrapStep, UnwrapStep;
    if k > 0 && n > 0 {
      StepUndone(E, D, WrapSteps(E, x, n, k - 1), GroupOf(n, k - 1), k);
      StepsUndone(E, D, x, n, k - 1);
    }
  }

  /** Unwrapping what was wrapped gives the key back, behind the expected initial value. */
  lemma WrapRoundTrip(E: BlockFunction, D: BlockFunction, plain: seq<byte>, n: nat)
    requires Cipher(E, D) && BlockSize(D) && |plain| == 8 * n
    ensures BlockSize(E)
    ensures UnwrapSteps(D, WrapSteps(E, IV + plain, n, 6 * n), n, 6 * n) == IV + plain
  {
    hide Cipher, BlockSize;
    CipherSize(E, D);
    StepsUndone(E, D, IV + plain, n, 6 * n);
  }

  // ---------- aes_wrap and aes_unwrap ----------

  /** aes_wrap. */
  method Wrap(E: BlockFunction, n: nat, plain: seq<byte>, cipher: array<byte>)
    requires BlockSize(E) && |plain| == 8 * n && cipher.Length == 8 * n + 8
    modifies cipher
    ensures cipher[..] == WrapSteps(E, IV + plain, n, 6 * n)
  {
    hide BlockSize, WrapSteps;
    Load(n, plain, cipher);
    ghost var x := IV + plain;
    var j := 0;
    MulNothing(n);
    WrapNone(E, x, n);
    while j <= 5
      invariant 0 <= j <= 6 && 0 <= n * j && cipher[..] == WrapSteps(E, x, n, n * j)
    {
      WrapRound(E, n, j, x, cipher);
      MulNext(n, j);
      j := j + 1;
    }
  }

  method Load(n: nat, plain: seq<byte>, cipher: array<byte>)
    requires |plain| == 8 * n && cipher.Length == 8 * n + 8
    modifies cipher
    ensures cipher[..] == IV + plain
  {
    forall k | 0 <= k < 8 * n + 8 { cipher[k] := if k < 8 then 0xa6 else plain[k - 8]; }
  }

  /** The inner loop of aes_wrap. */
  method WrapRound(E: BlockFunction, n: nat, j: nat, ghost x: seq<byte>, cipher: array<byte>)
    requires BlockSize(E) && |x| == 8 * n + 8 == cipher.Length && 0 <= n * j && cipher[..] == WrapSteps(E, x, n, n * j)
    modifies cipher
    ensures 0 <= n * j + n && cipher[..] == WrapSteps(E, x, n, n * j + n)
  {
    hide BlockSize, WrapSteps;
    ghost var t: nat := n * j;
    var i := 1;
    while i <= n
      invariant 1 <= i <= n + 1 && cipher[..] == WrapSteps(E, x, n, t + i - 1)
    {
      StepIndex(n, j, i);
      WrapNext(E, x, n, t + i - 1);
      WrapGroup(E, cipher, i, n * j + i);
      i := i + 1;
    }
  }

  lemma WrapNone(E: BlockFunction, x: seq<byte>, n: nat)
    requires BlockSize(E) && |x| == 8 * n + 8
    ensures WrapSteps(E, x, n, 0) == x
  {
  }

  lemma WrapNext(E: BlockFunction, x: seq<byte>, n: nat, k: nat)
    requires BlockSize(E) && |x| == 8 * n + 8 && n > 0
    ensures WrapSteps(E, x, n, k + 1) == WrapStep(E, WrapSteps(E, x, n, k), GroupOf(n, k), k + 1)
  {
  }

  /** The body of the loop of aes_wrap. */
  method WrapGroup(E: BlockFunction, cipher: array<byte>, i: nat, t: nat)
    requires BlockSize(E) && 1 <= i && 8 * i + 8 <= cipher.Length
    modifies cipher
    ensures cipher[..] == WrapStep(E, old(cipher[..]), i, t)
  {
    var b := E(BlockAt(cipher[..], i));
    Write(cipher, i, XorLast(b[..8], t), b[8..]);
  }

  method UnwrapGroup(D: BlockFunction, buf: array<byte>, i: nat, t: nat)
    requires BlockSize(D) && 1 <= i && 8 * i + 8 <= buf.Length
    modifies buf
    ensures buf[..] == UnwrapStep(D, old(buf[..]), i, t)
  {
    ghost var x := buf[..];
    assert buf[..8] == x[..8] && buf[8 * i..8 * i + 8] == x[8 * i..8 * i + 8];
    var b := D(XorLast(buf[..8], t) + buf[8 * i..8 * i + 8]);
    Write(buf, i, b[..8], b[8..]);
  }

  /** The two copies into the buffer. */
  method Write(buf: array<byte>, i: nat, a: seq<byte>, r: seq<byte>)
    requires 1 <= i && 8 * i + 8 <= buf.Length && |a| == 8 == |r|
    modifies buf
    ensures buf[..] == Store(old(buf[..]), i, a, r)
  {
    forall k | 0 <= k < 8 { buf[k] := a[k]; }
    forall k | 8 * i <= k < 8 * i + 8 { buf[k] := r[k - 8 * i]; }
  }

  lemma MulNothing(n: nat)
    ensures n * 0 == 0
  {
  }

  lemma MulNext(n: nat, j: nat)
    ensures n * (j + 1) == n * j + n && 0 <= n * j
  {
    Distribute(n, j, 1);
    MulLe(0, n, j);
  }

  lemma StepIndex(n: nat, j: nat, i: nat)
    requires 1 <= i <= n
    ensures 0 <= n * j && GroupOf(n, n * j + i - 1) == i
  {
    MulLe(0, n, j);
    DivModUnique(n * j + i - 1, n, j, i - 1);
  }

  /** aes_unwrap: true for the return value 0. */
  method Unwrap(D: BlockFunction, n: nat, cipher: seq<byte>, plain: array<byte>) returns (ok: bool)
    requires BlockSize(D) && |cipher| == 8 * n + 8 && plain.Length == 8 * n
    modifies plain
    ensures plain[..] == UnwrapSteps(D, cipher, n, 6 * n)[8..]
    ensures ok <==> UnwrapSteps(D, cipher, n, 6 * n)[..8] == IV
  {
    hide BlockSize, UnwrapStep;
    var buf := new byte[8 * n + 8](k requires 0 <= k < |cipher| => cipher[k]);
    assert buf[..] == cipher;
    var j := 5;
    while j >= 0
      invariant -1 <= j <= 5 && 0 <= n * (j + 1)
      invariant UnwrapSteps(D, buf[..], n, n * (j + 1)) == UnwrapSteps(D, cipher, n, 6 * n)
    {
      var i := n;
      MulNext(n, j);
      while i >= 1
        invariant 0 <= i <= n && 0 <= n * j
        invariant UnwrapSteps(D, buf[..], n, n * j + i) == UnwrapSteps(D, cipher, n, 6 * n)
      {
        StepIndex(n, j, i);
        UnwrapGroup(D, buf, i, n * j + i);
        i := i - 1;
      }
      j := j - 1;
    }
    MulNothing(n);
    ghost var x := buf[..];
    forall k | 0 <= k < 8 * n { plain[k] := buf[k + 8]; }
    assert plain[..] == x[8..];
    ok := buf[..8] == IV;
    assert x[..8] == buf[..8];
  }

  // ---------- RFC 3394 ----------

  /** The eight bytes of t, high-order first. */
  function Bytes64(t: nat): (r: seq<byte>)
    ensures |r| == 8
  {
    seq(8, i requires 0 <= i < 8 => Low(Shr(t, 8 * (7 - i))))
  }

  function Xor(a: seq<byte>, b: seq<byte>): (r: seq<byte>)
    requires |a| == |b|
    ensures |r| == |a|
  {
    seq(|a|, i requires 0 <= i < |a| => a[i] ^ b[i])
  }

  /** The registers of section 2.2.1 of RFC 3394: A and R[1], .., R[n]. */
  datatype Registers = Registers(a: seq<byte>, r: seq<seq<byte>>)

  ghost predicate Sized(g: Registers, n: nat)
  {
    |g.a| == 8 && |g.r| == n && forall i | 0 <= i < n :: |g.r[i]| == 8
  }

  /** Step t in the first of its two forms, in which the registers are shifted: with B the encryption of A | R[1],
      A becomes MSB(64, B) ^ t, R[i] becomes R[i + 1], and R[n] becomes LSB(64, B). */
  function RfcStep(E: BlockFunction, g: Registers, t: nat): Registers
    requires BlockSize(E) && |g.r| > 0 && |g.a| == 8 == |g.r[0]|
  {
    var b := E(g.a + g.r[0]);
    Registers(Xor(b[..8], Bytes64(t)), g.r[1..] + [b[8..]])
  }

  ghost function RfcSteps(E: BlockFunction, g: Registers, n: nat, t: nat): (h: Registers)
    requires BlockSize(E) && n > 0 && Sized(g, n)
    ensures Sized(h, n)
  {
    if t == 0 then g else RfcStep(E, RfcSteps(E, g, n, t - 1), t)
  }

  /** The buffer of aes_wrap after k steps holds A and the registers, turned back by the shifts. */
  ghost predicate Holds(x: seq<byte>, g: Registers, n: nat, k: nat)
    requires n > 0
  {
    && Sized(g, n) && |x| == 8 * n + 8 && x[..8] == g.a
    && forall i | 0 <= i < n :: g.r[i] == GroupAt(x, n, (k + i) % n)
  }

  /** The 8-byte group i of the buffer, counted from 0. */
  function GroupAt(x: seq<byte>, n: nat, i: int): seq<byte>
    requires |x| == 8 * n + 8 && 0 <= i < n
  {
    x[8 * i + 8..8 * i + 16]
  }

  /** The initial value of section 2.2.3.1. */
  lemma InitialValue()
    ensures |IV| == 8 && forall i | 0 <= i < 8 :: IV[i] == 0xa6
  {
  }

  /** The one-byte counter is the counter of the RFC exactly as long as it fits in a byte. */
  lemma CounterFits(a: seq<byte>, t: nat)
    requires |a| == 8 && t < Pow2(64)
    ensures XorLast(a, t) == Xor(a, Bytes64(t)) <==> t < 256
  {
    hide Pow2, Low, Shr;
    if t < 256 {
      forall i: nat | i < 8
        ensures XorLast(a, t)[i] == Xor(a, Bytes64(t))[i]
      {
        SmallCounter(t, i);
        XorZero(a[i]);
      }
    } else {
      LargeCounter(t);
      var i := HighByte(t, 7);
      XorChanges(a[i], Bytes64(t)[i]);
      assert XorLast(a, t)[i] == a[i];
    }
  }

  lemma LargeCounter(t: nat)
    requires 256 <= t < Pow2(64)
    ensures Shr(t, 64) == 0 && Shr(t, 8) != 0
  {
    hide Pow2;
    Pow2Small();
    ShrUnique(t, 64, 0, t);
    DivModUnique(t, 256, t / 256, t % 256);
  }

  /** The first byte of the counter that is not zero. */
  lemma {:induction false} HighByte(t: nat, j: nat) returns (i: nat)
    requires 1 <= j <= 7 && Shr(t, 8 * (j + 1)) == 0 && Shr(t, 8) != 0
    ensures i < 7 && Bytes64(t)[i] != 0
  {
    hide Pow2, Low, Shr;
    var y := Shr(t, 8 * j);
    if y == 0 {
      i := HighByte(t, j - 1);
    } else {
      i := 7 - j;
      ShrShr(t, 8 * j, 8);
      Pow2Small();
      TopByte(y);
      ByteNotZero(y);
    }
  }

  lemma TopByte(y: nat)
    requires Shr(y, 8) == 0
    ensures y < 256
  {
    Pow2Small();
  }

  lemma ByteNotZero(y: nat)
    requires 0 < y < 256
    ensures Low(y) != 0
  {
  }

  lemma XorChanges(x: byte, y: byte)
    requires y != 0
    ensures x ^ y != x
  {
  }

  lemma SmallCounter(t: nat, i: nat)
    requires t < 256 && i < 8
    ensures Bytes64(t)[i] == if i < 7 then 0 else Low(t)
  {
    hide Pow2, Low, Shr;
    if i < 7 {
      Pow2Mono(8, 8 * (7 - i));
      Pow2Small();
      ShrUnique(t, 8 * (7 - i), 0, t);
      LowZero();
    } else {
      ShrZero(t);
    }
  }

  lemma LowZero()
    ensures Low(0) == 0
  {
  }

  lemma XorZero(x: byte)
    ensures x ^ 0 == x
  {
  }

  lemma StoredGroup(x: seq<byte>, n: nat, i: nat, a: seq<byte>, r: seq<byte>, j: nat)
    requires |x| == 8 * n + 8 && i < n && j < n && |a| == 8 == |r|
    ensures GroupAt(Store(x, i + 1, a, r), n, j) == if i == j then r else GroupAt(x, n, j)
  {
    var y := Store(x, i + 1, a, r);
    assert forall k | 8 <= k < |x| && !(8 * i + 8 <= k < 8 * i + 16) :: y[k] == x[k];
  }

  /** The registers are read round about, starting one further on after each step. */
  lemma Turned(n: nat, k: nat, i: nat)
    requires i < n
    ensures (k + 1 + i) % n == k % n <==> i == n - 1
  {
    var q, r := k / n, k % n;
    assert k == n * q + r;
    if r + 1 + i < n {
      DivModUnique(k + 1 + i, n, q, r + 1 + i);
    } else {
      Distribute(n, q, 1);
      DivModUnique(k + 1 + i, n, q + 1, r + 1 + i - n);
    }
  }

  lemma TurnedGroups(x: seq<byte>, g: Registers, n: nat, k: nat, a: seq<byte>, r: seq<byte>)
    requires n > 0 && Holds(x, g, n, k) && |a| == 8 == |r|
    ensures Holds(Store(x, k % n + 1, a, r), Registers(a, g.r[1..] + [r]), n, k + 1)
  {
    hide Store;
    var p := k % n;
    var y, h := Store(x, p + 1, a, r), g.r[1..] + [r];
    forall i | 0 <= i < n
      ensures h[i] == GroupAt(y, n, (k + 1 + i) % n)
    {
      Turned(n, k, i);
      StoredGroup(x, n, p, a, r, (k + 1 + i) % n);
      if i < n - 1 { assert h[i] == g.r[i + 1]; }
    }
  }

  lemma FirstRegister(x: seq<byte>, g: Registers, n: nat, k: nat)
    requires n > 0 && Holds(x, g, n, k)
    ensures |x| == 8 * n + 8 && |g.r| == n && |g.a| == 8 == |g.r[0]| && k % n < n && BlockAt(x, k % n + 1) == g.a + g.r[0]
  {
    assert g.r[0] == GroupAt(x, n, (k + 0) % n);
  }

  /** A step of aes_wrap is a step of the RFC on the shifted registers. */
  lemma StepHolds(E: BlockFunction, x: seq<byte>, g: Registers, n: nat, k: nat)
    requires BlockSize(E) && n > 0 && Holds(x, g, n, k) && k + 1 < 256
    ensures 8 * GroupOf(n, k) + 8 <= |x| && |g.r| > 0 && |g.a| == 8 == |g.r[0]|
    ensures Holds(WrapStep(E, x, GroupOf(n, k), k + 1), RfcStep(E, g, k + 1), n, k + 1)
  {
    hide Bytes64, Xor, XorLast, Store, BlockAt, Holds, Pow2;
    FirstRegister(x, g, n, k);
    var b := E(BlockAt(x, k % n + 1));
    Pow2Mono(8, 64);
    Pow2Small();
    CounterFits(b[..8], k + 1);
    TurnedGroups(x, g, n, k, XorLast(b[..8], k + 1), b[8..]);
  }

  /** While 6n is below 256, aes_wrap computes what the RFC asks: after 6n steps the shifts have brought
      every register back to its place. */
  lemma {:induction false} WrapIsRfc(E: BlockFunction, x: seq<byte>, g: Registers, n: nat, k: nat)
    requires BlockSize(E) && n > 0 && k < 256 && |x| == 8 * n + 8 && Sized(g, n) && Holds(x, g, n, 0)
    ensures Holds(WrapSteps(E, x, n, k), RfcSteps(E, g, n, k), n, k)
  {
    hide BlockSize, Holds, WrapStep, RfcStep, Sized;
    if k > 0 {
      WrapIsRfc(E, x, g, n, k - 1);
      StepHolds(E, WrapSteps(E, x, n, k - 1), RfcSteps(E, g, n, k - 1), n, k - 1);
    }
  }

  /** The whole of aes_wrap: A and the registers after 6n steps, one after the other. */
  lemma WrapOutput(E: BlockFunction, plain: seq<byte>, r: seq<seq<byte>>, n: nat)
    requires BlockSize(E) && 0 < n && 6 * n < 256 && |plain| == 8 * n && Sized(Registers(IV, r), n)
    requires forall i | 0 <= i < n :: r[i] == plain[8 * i..8 * i + 8]
    ensures var g := RfcSteps(E, Registers(IV, r), n, 6 * n); var out := WrapSteps(E, IV + plain, n, 6 * n);
            out[..8] == g.a && forall i | 0 <= i < n :: GroupAt(out, n, i) == g.r[i]
  {
    hide WrapSteps, RfcSteps;
    var x, g0 := IV + plain, Registers(IV, r);
    forall i | 0 <= i < n
      ensures g0.r[i] == GroupAt(x, n, (0 + i) % n)
    {
      DivModUnique(i, n, 0, i);
      assert x[8 * i + 8..8 * i + 16] == plain[8 * i..8 * i + 8];
    }
    WrapIsRfc(E, x, g0, n, 6 * n);
    var g, out := RfcSteps(E, g0, n, 6 * n), WrapSteps(E, x, n, 6 * n);
    forall i | 0 <= i < n
      ensures GroupAt(out, n, i) == g.r[i]
    {
      DivModUnique(6 * n + i, n, 6, i);
    }
  }
}
