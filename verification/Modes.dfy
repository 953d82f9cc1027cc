/** OMAC1, CTR, EAX and CBC over a block cipher: aes_wrap.c. */
module Modes {
  import opened Arith
  import opened KeyWrap

  const BLOCK: nat := 16
  const ZERO: seq<byte> := [0, 0, 0, 0, 0, 0, 0, 0, 0, 0, 0, 0, 0, 0, 0, 0]

  // ---------- exclusive or ----------

  lemma XorTwice(a: seq<byte>, b: seq<byte>)
    requires |a| == |b|
    ensures Xor(Xor(a, b), b) == a
  {
    forall i | 0 <= i < |a|
      ensures (a[i] ^ b[i]) ^ b[i] == a[i]
    {
      Cancel(a[i], b[i]);
    }
  }

  lemma Cancel(x: byte, y: byte)
    ensures (x ^ y) ^ y == x
  {
  }

  lemma XorRegroup(a: seq<byte>, b: seq<byte>, c: seq<byte>)
    requires |a| == |b| == |c|
    ensures Xor(a, Xor(b, c)) == Xor(b, Xor(c, a))
  {
    forall i | 0 <= i < |a|
      ensures a[i] ^ (b[i] ^ c[i]) == b[i] ^ (c[i] ^ a[i])
    {
      Regroup(a[i], b[i], c[i]);
    }
  }

  lemma Regroup(x: byte, y: byte, z: byte)
    ensures x ^ (y ^ z) == y ^ (z ^ x)
  {
  }

  // ---------- doubling: gf_mulx ----------

  function Bit(x: byte, k: nat): bool
    requires k < 8
  {
    (x >> k) & 1 == 1
  }

  /** Bit i of a byte string, counted from its front. */
  function BitAt(s: seq<byte>, i: nat): bool
    requires i < 8 * |s|
  {
    Bit(s[i / 8], 7 - i % 8)
  }

  /** Section 2.3 of RFC 4493: shift left by one, and reduce by 0x87 if a one was shifted out. */
  ghost predicate IsDouble(r: seq<byte>, s: seq<byte>)
    requires |r| == |s| == BLOCK
  {
    forall i: nat | i < 128 ::
      BitAt(r, i) == ((i < 127 && BitAt(s, i + 1)) != (BitAt(s, 0) && Bit(0x87, 7 - i % 8) && i >= 120))
  }

  function Shifted(x: byte, y: byte): byte
  {
    (x << 1) | (y >> 7)
  }

  lemma ShiftedBits(x: byte, y: byte, k: nat)
    requires k < 8
    ensures Bit(Shifted(x, y), k) == if k > 0 then Bit(x, k - 1) else Bit(y, 7)
  {
    if k == 0 {} else if k == 1 {} else if k == 2 {} else if k == 3 {} else if k == 4 {} else if k == 5 {} else if k == 6 {} else {}
  }

  /** The last byte, reduced if the first one has its top bit set. */
  function Reduced(x: byte, first: byte): byte
  {
    if first & 0x80 != 0 then (x << 1) ^ 0x87 else x << 1
  }

  lemma ReducedBits(x: byte, first: byte, k: nat)
    requires k < 8
    ensures Bit(Reduced(x, first), k) == ((k > 0 && Bit(x, k - 1)) != (Bit(first, 7) && Bit(0x87, k)))
  {
    if k == 0 {} else if k == 1 {} else if k == 2 {} else if k == 3 {} else if k == 4 {} else if k == 5 {} else if k == 6 {} else {}
  }

  function Double(s: seq<byte>): (r: seq<byte>)
    requires |s| == BLOCK
    ensures |r| == BLOCK
  {
    seq(15, i requires 0 <= i < 15 => Shifted(s[i], s[i + 1]))
      + [Reduced(s[15], s[0])]
  }

  lemma DoubleIsDouble(s: seq<byte>)
    requires |s| == BLOCK
    ensures IsDouble(Double(s), s)
  {
    hide Bit, BitAt, Double;
    forall i: nat | i < 128
      ensures BitAt(Double(s), i) == ((i < 127 && BitAt(s, i + 1)) != (BitAt(s, 0) && Bit(0x87, 7 - i % 8) && i >= 120))
    {
      DoubleBit(s, i);
    }
  }

  lemma DoubleBit(s: seq<byte>, i: nat)
    requires |s| == BLOCK && i < 128
    ensures BitAt(Double(s), i) == ((i < 127 && BitAt(s, i + 1)) != (BitAt(s, 0) && Bit(0x87, 7 - i % 8) && i >= 120))
  {
    hide Bit, Shifted, Reduced;
    var r, q, k := Double(s), i / 8, 7 - i % 8;
    if q < 15 {
      assert r[q] == Shifted(s[q], s[q + 1]);
      ShiftedBits(s[q], s[q + 1], k);
    } else {
      ReducedBits(s[15], s[0], k);
    }
  }

  /** gf_mulx, in place. */
  method GfMulx(pad: array<byte>)
    requires pad.Length == BLOCK
    modifies pad
    ensures pad[..] == Double(old(pad[..]))
  {
    hide Shifted, Reduced;
    ghost var s := pad[..];
    var first := pad[0];
    var i := 0;
    while i < BLOCK - 1
      invariant 0 <= i <= BLOCK - 1
      invariant forall k | 0 <= k < i :: pad[k] == Shifted(s[k], s[k + 1])
      invariant forall k | i <= k < BLOCK :: pad[k] == s[k]
    {
      pad[i] := Shifted(pad[i], pad[i + 1]);
      i := i + 1;
    }
    pad[BLOCK - 1] := Reduced(pad[BLOCK - 1], first);
  }

  // ---------- OMAC1 ----------

  /** The chaining value after the whole blocks of m. */
  function Chain(E: BlockFunction, x: seq<byte>, m: seq<byte>): (r: seq<byte>)
    requires BlockSize(E) && |x| == BLOCK
    ensures |r| == BLOCK
    decreases |m|
  {
    if |m| < BLOCK then x else Chain(E, E(Xor(x, m[..BLOCK])), m[BLOCK..])
  }

  lemma {:induction false} ChainBlock(E: BlockFunction, x: seq<byte>, m: seq<byte>, b: seq<byte>)
    requires BlockSize(E) && |x| == BLOCK && |m| % BLOCK == 0 && |b| == BLOCK
    ensures Chain(E, x, m + b) == E(Xor(Chain(E, x, m), b))
    decreases |m|
  {
    if m == [] {
      assert m + b == b && b[..BLOCK] == b && b[BLOCK..] == [];
    } else {
      assert (m + b)[..BLOCK] == m[..BLOCK] && (m + b)[BLOCK..] == m[BLOCK..] + b;
      ChainBlock(E, E(Xor(x, m[..BLOCK])), m[BLOCK..], b);
    }
  }

  /** An incomplete last block, padded with a one bit and zeros. */
  function PadBlock(s: seq<byte>): (r: seq<byte>)
    requires |s| < BLOCK
    ensures |r| == BLOCK
  {
    s + [0x80] + seq(BLOCK - 1 - |s|, _ => 0)
  }

  /** The padding of section 2.4 of RFC 4493: a one bit behind the message, and zero bits behind that. */
  lemma PadBlockBits(s: seq<byte>, i: nat)
    requires |s| < BLOCK && i < 128
    ensures BitAt(PadBlock(s), i) == if i < 8 * |s| then BitAt(s, i) else i == 8 * |s|
  {
    hide Bit;
    MarkBits(7 - i % 8);
  }

  lemma MarkBits(k: nat)
    requires k < 8
    ensures Bit(0x80, k) == (k == 7) && !Bit(0, k)
  {
    if k == 0 {} else if k == 1 {} else if k == 2 {} else if k == 3 {} else if k == 4 {} else if k == 5 {} else if k == 6 {} else {}
  }

  /** Where the last block starts: it is empty only if the message is. */
  function LastStart(n: nat): (p: nat)
    ensures p <= n <= p + BLOCK && p % BLOCK == 0 && (n == p ==> n == 0)
  {
    if n == 0 then 0 else (n - 1) / BLOCK * BLOCK
  }

  /** Section 2.4 of RFC 4493. */
  function Mac(E: BlockFunction, m: seq<byte>): (r: seq<byte>)
    requires BlockSize(E)
    ensures |r| == BLOCK
  {
    var k1 := Double(E(ZERO));
    var k2 := Double(k1);
    var p := LastStart(|m|);
    var last := if |m| - p == BLOCK then Xor(m[p..], k1) else Xor(PadBlock(m[p..]), k2);
    E(Xor(Chain(E, ZERO, m[..p]), last))
  }

  /** buf[i] ^= s[i] for the bytes of s. */
  method XorInto(buf: array<byte>, s: seq<byte>)
    requires |s| <= buf.Length
    modifies buf
    ensures buf[..] == Xor(old(buf[..|s|]), s) + old(buf[|s|..])
  {
    var i := 0;
    while i < |s|
      invariant 0 <= i <= |s|
      invariant forall k | 0 <= k < i :: buf[k] == old(buf[k]) ^ s[k]
      invariant forall k | i <= k < buf.Length :: buf[k] == old(buf[k])
    {
      buf[i] := buf[i] ^ s[i];
      i := i + 1;
    }
  }

  method Fill(buf: array<byte>, s: seq<byte>)
    requires |s| == buf.Length
    modifies buf
    ensures buf[..] == s
  {
    forall k | 0 <= k < |s| { buf[k] := s[k]; }
  }

  /** What cbc holds when left bytes remain: the last block is not encrypted. */
  ghost predicate Chained(E: BlockFunction, m: seq<byte>, left: nat, cbc: seq<byte>)
    requires BlockSize(E)
  {
    && left <= |m| && (|m| - left) % BLOCK == 0 && |cbc| == BLOCK
    && (left > 0 || |m| == 0 ==> cbc == Chain(E, ZERO, m[..|m| - left]))
    && (left == 0 && |m| > 0 ==> cbc == Xor(Chain(E, ZERO, m[..|m| - BLOCK]), m[|m| - BLOCK..]))
  }

  /** omac1_aes_128. */
  method Omac1(E: BlockFunction, m: seq<byte>) returns (mac: seq<byte>)
    requires BlockSize(E)
    ensures mac == Mac(E, m)
  {
    hide Double, Xor, Chain, PadBlock;
    var cbc := new byte[BLOCK](_ => 0);
    assert cbc[..] == ZERO;
    var left: nat := |m|;
    ChainStart(E, m);
    while left >= BLOCK
      invariant Chained(E, m, left, cbc[..])
    {
      ghost var x := cbc[..];
      var pos := |m| - left;
      XorBlock(cbc, m[pos..pos + BLOCK]);
      if left > BLOCK {
        var b := E(cbc[..]);
        Fill(cbc, b);
      }
      ChainStep(E, m, left, x);
      left := left - BLOCK;
    }
    mac := Finish(E, m, left, cbc);
  }

  method XorBlock(buf: array<byte>, s: seq<byte>)
    requires |s| == buf.Length
    modifies buf
    ensures buf[..] == Xor(old(buf[..]), s)
  {
    ghost var x := buf[..];
    assert x == buf[..|s|];
    XorInto(buf, s);
  }

  lemma ChainStart(E: BlockFunction, m: seq<byte>)
    requires BlockSize(E)
    ensures Chained(E, m, |m|, ZERO)
  {
  }

  lemma ChainStep(E: BlockFunction, m: seq<byte>, left: nat, x: seq<byte>)
    requires BlockSize(E) && BLOCK <= left && Chained(E, m, left, x)
    ensures var y := Xor(x, m[|m| - left..|m| - left + BLOCK]);
            Chained(E, m, left - BLOCK, if left > BLOCK then E(y) else y)
  {
    hide Xor, Chain;
    var p := |m| - left;
    ChainBlock(E, ZERO, m[..p], m[p..p + BLOCK]);
    assert m[..p + BLOCK] == m[..p] + m[p..p + BLOCK];
    assert left == BLOCK ==> m[p..p + BLOCK] == m[|m| - BLOCK..];
  }

  /** The end of omac1_aes_128: the subkey, the padding and the last encryption. */
  method Finish(E: BlockFunction, m: seq<byte>, left: nat, cbc: array<byte>) returns (mac: seq<byte>)
    requires BlockSize(E) && left < BLOCK && cbc.Length == BLOCK && Chained(E, m, left, cbc[..])
    modifies cbc
    ensures mac == Mac(E, m)
  {
    hide Double, Xor, Chain, PadBlock;
    ghost var x := cbc[..];
    var pad := new byte[BLOCK](_ => 0);
    assert pad[..] == ZERO;
    var l := E(pad[..]);
    Fill(pad, l);
    GfMulx(pad);
    if left > 0 || |m| == 0 {
      XorPadded(cbc, m[|m| - left..]);
      GfMulx(pad);
    }
    XorBlock(pad, cbc[..]);
    mac := E(pad[..]);
    FinishMeaning(E, m, left, x);
  }

  /** The bytes of an incomplete last block and the one bit behind them. */
  method XorPadded(cbc: array<byte>, s: seq<byte>)
    requires |s| < BLOCK == cbc.Length
    modifies cbc
    ensures cbc[..] == Xor(old(cbc[..]), PadBlock(s))
  {
    ghost var x := cbc[..];
    XorInto(cbc, s);
    cbc[|s|] := cbc[|s|] ^ 0x80;
    hide PadBlock;
    forall k | 0 <= k < BLOCK
      ensures cbc[k] == x[k] ^ PadBlock(s)[k]
    {
      PaddedByte(x[k], s, k);
    }
  }

  lemma PaddedByte(x: byte, s: seq<byte>, k: nat)
    requires |s| < BLOCK && k < BLOCK
    ensures x ^ PadBlock(s)[k] == if k < |s| then x ^ s[k] else if k == |s| then x ^ 0x80 else x
  {
    if k > |s| { XorZero(x); }
  }

  lemma FinishMeaning(E: BlockFunction, m: seq<byte>, left: nat, x: seq<byte>)
    requires BlockSize(E) && left < BLOCK && Chained(E, m, left, x)
    ensures var k1 := Double(E(ZERO));
            Mac(E, m) == if left > 0 || m == [] then E(Xor(Double(k1), Xor(x, PadBlock(m[|m| - left..]))))
                         else E(Xor(k1, x))
  {
    hide Double, Xor, Chain, PadBlock, LastStart, Mac;
    if left > 0 || m == [] {
      LastStartIs(|m|, left);
      assert x == Chain(E, ZERO, m[..|m| - left]);
      FinishPadded(E, m, |m| - left);
    } else {
      WholeBlock(|m|);
      LastStartIs(|m|, BLOCK);
      FinishWhole(E, m, |m| - BLOCK);
    }
  }

  lemma FinishPadded(E: BlockFunction, m: seq<byte>, p: nat)
    requires BlockSize(E) && p == LastStart(|m|) && |m| - p < BLOCK
    ensures Mac(E, m) == E(Xor(Double(Double(E(ZERO))), Xor(Chain(E, ZERO, m[..p]), PadBlock(m[p..]))))
  {
    hide Double, Xor, Chain, PadBlock, LastStart;
    XorRegroup(Double(Double(E(ZERO))), Chain(E, ZERO, m[..p]), PadBlock(m[p..]));
  }

  lemma FinishWhole(E: BlockFunction, m: seq<byte>, p: nat)
    requires BlockSize(E) && p == LastStart(|m|) && |m| - p == BLOCK
    ensures Mac(E, m) == E(Xor(Double(E(ZERO)), Xor(Chain(E, ZERO, m[..p]), m[p..])))
  {
    hide Double, Xor, Chain, PadBlock, LastStart;
    XorRegroup(Double(E(ZERO)), Chain(E, ZERO, m[..p]), m[p..]);
  }

  lemma WholeBlock(n: nat)
    requires 0 < n && n % BLOCK == 0
    ensures BLOCK <= n && (n - BLOCK) % BLOCK == 0
  {
  }

  lemma LastStartIs(n: nat, left: nat)
    requires left <= n && (n - left) % BLOCK == 0 && left <= BLOCK && (left == 0 <==> n == 0)
    ensures LastStart(n) == n - left
  {
  }

  // ---------- CTR ----------

  /** A big-endian number in bytes. */
  function BigEndian(s: seq<byte>): nat
  {
    if s == [] then 0 else 256 * BigEndian(s[..|s| - 1]) + s[|s| - 1] as nat
  }

  function Radix(n: nat): (r: nat)
    ensures r > 0
  {
    if n == 0 then 1 else 256 * Radix(n - 1)
  }

  /** The counter plus one, dropping a carry out of the first byte. */
  function Next(s: seq<byte>): (r: seq<byte>)
    ensures |r| == |s|
  {
    if s == [] then [] else
    var n := |s| - 1;
    if s[n] + 1 != 0 then s[..n] + [s[n] + 1] else Next(s[..n]) + [0]
  }

  lemma {:induction false} NextAddsOne(s: seq<byte>)
    ensures BigEndian(s) < Radix(|s|)
    ensures BigEndian(Next(s)) == if BigEndian(s) + 1 == Radix(|s|) then 0 else BigEndian(s) + 1
  {
    if s != [] {
      var n := |s| - 1;
      NextAddsOne(s[..n]);
      NextByte(s[n]);
      var r := Next(s);
      if s[n] + 1 != 0 {
        assert r[..n] == s[..n] && r[n] == s[n] + 1;
      } else {
        assert r[..n] == Next(s[..n]) && r[n] == 0;
      }
    }
  }

  lemma NextByte(x: byte)
    ensures if x + 1 != 0 then (x + 1) as nat == x as nat + 1 else x as nat == 255
    ensures x as nat < 256
  {
  }

  /** A number has one form in a given number of bytes. */
  lemma {:induction false} BigEndianUnique(a: seq<byte>, b: seq<byte>)
    requires |a| == |b| && BigEndian(a) == BigEndian(b)
    ensures a == b
  {
    if a != [] {
      var n := |a| - 1;
      ByteRange(a[n]);
      ByteRange(b[n]);
      LastDigit(BigEndian(a[..n]), BigEndian(b[..n]), a[n] as nat, b[n] as nat);
      SameByte(a[n], b[n]);
      hide BigEndian;
      BigEndianUnique(a[..n], b[..n]);
      assert a == a[..n] + [a[n]] && b == b[..n] + [b[n]];
    }
  }

  lemma ByteRange(x: byte)
    ensures x as nat < 256
  {
  }

  lemma LastDigit(x: nat, y: nat, a: nat, b: nat)
    requires a < 256 && b < 256 && 256 * x + a == 256 * y + b
    ensures x == y && a == b
  {
  }

  lemma SameByte(x: byte, y: byte)
    ensures x as nat == y as nat ==> x == y
  {
  }

  /** Counting up in place, from the last byte. */
  method Increment(counter: array<byte>)
    requires counter.Length == BLOCK
    modifies counter
    ensures counter[..] == Next(old(counter[..]))
  {
    hide Next, Carried;
    ghost var s, c := counter[..], counter[..];
    var i := BLOCK - 1;
    CarryStart(s);
    while i >= 0
      invariant -1 <= i < BLOCK && c == counter[..] && Carried(s, c, i + 1)
    {
      CarryStep(s, c, i);
      counter[i] := counter[i] + 1;
      c := c[i := c[i] + 1];
      if counter[i] != 0 { return; }
      i := i - 1;
    }
    CarryEnd(s, c);
  }

  /** The bytes from n on have been counted up, with a carry into the first n. */
  ghost predicate Carried(s: seq<byte>, c: seq<byte>, n: nat)
  {
    n <= |s| == |c| && c[..n] == s[..n] && Next(s) == Next(s[..n]) + c[n..]
  }

  lemma CarryStart(s: seq<byte>)
    ensures Carried(s, s, |s|)
  {
    assert s[..|s|] == s && s[|s|..] == [];
  }

  lemma CarryStep(s: seq<byte>, c: seq<byte>, i: nat)
    requires i < |s| && Carried(s, c, i + 1)
    ensures i < |c| && var c' := c[i := c[i] + 1]; if c'[i] != 0 then c' == Next(s) else Carried(s, c', i)
  {
    hide Next;
    NextLast(s[..i + 1]);
    assert s[..i + 1][..i] == s[..i] == c[..i + 1][..i] == c[..i] && s[..i + 1][i] == s[i] == c[..i + 1][i] == c[i];
    PutByte(c, i, c[i] + 1);
  }

  lemma PutByte(c: seq<byte>, i: nat, v: byte)
    requires i < |c|
    ensures var c' := c[i := v]; c' == c[..i] + [v] + c[i + 1..] && c'[..i] == c[..i] && c'[i..] == [v] + c[i + 1..]
  {
  }

  lemma CarryEnd(s: seq<byte>, c: seq<byte>)
    requires Carried(s, c, 0)
    ensures c == Next(s)
  {
    NextNothing();
    assert s[..0] == [] && c[0..] == c;
  }

  lemma NextLast(s: seq<byte>)
    requires s != []
    ensures var n := |s| - 1; Next(s) == if s[n] + 1 != 0 then s[..n] + [s[n] + 1] else Next(s[..n]) + [0]
  {
  }

  lemma NextNothing()
    ensures Next([]) == []
  {
  }

  function Least(a: nat, b: nat): nat
  {
    if a < b then a else b
  }

  /** CTR mode: data against the encryptions of successive counters. */
  function Ctr(E: BlockFunction, counter: seq<byte>, data: seq<byte>): (r: seq<byte>)
    requires BlockSize(E) && |counter| == BLOCK
    ensures |r| == |data|
    decreases |data|
  {
    if data == [] then [] else
    var len := Least(BLOCK, |data|);
    Xor(data[..len], E(counter)[..len]) + Ctr(E, Next(counter), data[len..])
  }

  lemma {:induction false} CtrTwice(E: BlockFunction, counter: seq<byte>, data: seq<byte>)
    requires BlockSize(E) && |counter| == BLOCK
    ensures Ctr(E, counter, Ctr(E, counter, data)) == data
    decreases |data|
  {
    hide Next, Xor;
    if data != [] {
      var len := Least(BLOCK, |data|);
      var c, k := Ctr(E, counter, data), E(counter)[..len];
      assert c[..len] == Xor(data[..len], k) && c[len..] == Ctr(E, Next(counter), data[len..]);
      XorTwice(data[..len], k);
      CtrTwice(E, Next(counter), data[len..]);
      assert data == data[..len] + data[len..];
    }
  }

  /** Block by block: byte j of block k is combined with byte j of the encryption of the counter plus k. */
  lemma {:induction false} CtrBytes(E: BlockFunction, counter: seq<byte>, data: seq<byte>, k: nat, c: seq<byte>, j: nat)
    requires BlockSize(E) && |counter| == BLOCK == |c| && j < BLOCK && BLOCK * k + j < |data|
    requires BigEndian(c) == (BigEndian(counter) + k) % Radix(BLOCK)
    ensures Ctr(E, counter, data)[BLOCK * k + j] == data[BLOCK * k + j] ^ E(c)[j]
    decreases k
  {
    hide Next, BigEndian, Radix;
    NextAddsOne(counter);
    NextAddsOne(c);
    if k == 0 {
      DivModUnique(BigEndian(counter), Radix(BLOCK), 0, BigEndian(counter));
      BigEndianUnique(c, counter);
    } else {
      CountOn(BigEndian(counter), BigEndian(Next(counter)), k, Radix(BLOCK));
      CtrBytes(E, Next(counter), data[BLOCK..], k - 1, c, j);
    }
  }

  lemma CountOn(a: nat, b: nat, k: nat, R: nat)
    requires 0 < k && a < R && b == if a + 1 == R then 0 else a + 1
    ensures (b + (k - 1)) % R == (a + k) % R
  {
    if a + 1 == R {
      var q, r := (b + (k - 1)) / R, (b + (k - 1)) % R;
      Distribute(R, q, 1);
      DivModUnique(a + k, R, q + 1, r);
    }
  }

  /** aes_128_ctr_encrypt. */
  method CtrEncrypt(E: BlockFunction, nonce: seq<byte>, data: array<byte>)
    requires BlockSize(E) && |nonce| == BLOCK
    modifies data
    ensures data[..] == Ctr(E, nonce, old(data[..]))
  {
    hide Next, Xor, Ctr, BlockSize;
    var counter := new byte[BLOCK];
    Fill(counter, nonce);
    ghost var d := data[..];
    var pos := 0;
    assert data[..0] + Ctr(E, nonce, data[0..]) == Ctr(E, nonce, d);
    while pos < data.Length
      invariant 0 <= pos <= data.Length && fresh(counter)
      invariant data[..pos] + Ctr(E, counter[..], data[pos..]) == Ctr(E, nonce, d)
    {
      ghost var c, before := counter[..], data[..];
      var len := CtrStep(E, counter, data, pos);
      CtrBlock(E, c, before, data[..], pos, len);
      pos := pos + len;
    }
    CtrEmpty(E, counter[..], data[pos..]);
  }

  /** The body of its loop. */
  method CtrStep(E: BlockFunction, counter: array<byte>, data: array<byte>, pos: nat) returns (len: nat)
    requires BlockSize(E) && counter != data && counter.Length == BLOCK && pos < data.Length
    modifies counter, data
    ensures len == Least(BLOCK, data.Length - pos) && counter[..] == Next(old(counter[..]))
    ensures BlockSize(E) && |E(old(counter[..]))| == BLOCK
    ensures data[..pos] == old(data[..pos]) && data[pos + len..] == old(data[pos + len..])
    ensures data[pos..pos + len] == Xor(old(data[pos..pos + len]), E(old(counter[..]))[..len])
  {
    hide Next, Xor;
    var buf := E(counter[..]);
    len := Least(BLOCK, data.Length - pos);
    XorAt(data, pos, buf[..len]);
    Increment(counter);
  }

  lemma CtrBlock(E: BlockFunction, c: seq<byte>, d: seq<byte>, r: seq<byte>, pos: nat, len: nat)
    requires BlockSize(E) && |c| == BLOCK && pos < |d| == |r| && len == Least(BLOCK, |d| - pos)
    requires r[..pos] == d[..pos] && r[pos + len..] == d[pos + len..]
    requires r[pos..pos + len] == Xor(d[pos..pos + len], E(c)[..len])
    ensures r[..pos + len] + Ctr(E, Next(c), r[pos + len..]) == d[..pos] + Ctr(E, c, d[pos..])
  {
    hide Next, Xor, Ctr;
    Slices(d, pos, len);
    CtrNext(E, c, d[pos..]);
    Advance(d, r, pos, len, Ctr(E, c, d[pos..]), Ctr(E, Next(c), d[pos + len..]));
  }

  lemma Slices(d: seq<byte>, pos: nat, n: nat)
    requires pos + n <= |d|
    ensures d[pos..][..n] == d[pos..pos + n] && d[pos..][n..] == d[pos + n..]
  {
  }

  /** The n bytes at pos are done: what was to come from pos on is these bytes and what comes after them. */
  lemma Advance(d: seq<byte>, r: seq<byte>, pos: nat, n: nat, before: seq<byte>, after: seq<byte>)
    requires pos + n <= |d| == |r| && r[..pos] == d[..pos] && before == r[pos..pos + n] + after
    ensures r[..pos + n] + after == d[..pos] + before
  {
    assert r[..pos + n] == r[..pos] + r[pos..pos + n];
  }

  lemma CtrNext(E: BlockFunction, c: seq<byte>, d: seq<byte>)
    requires BlockSize(E) && |c| == BLOCK && d != []
    ensures var len := Least(BLOCK, |d|); Ctr(E, c, d) == Xor(d[..len], E(c)[..len]) + Ctr(E, Next(c), d[len..])
  {
    hide Next, Xor;
  }

  lemma CtrEmpty(E: BlockFunction, counter: seq<byte>, data: seq<byte>)
    requires BlockSize(E) && |counter| == BLOCK && data == []
    ensures Ctr(E, counter, data) == []
  {
  }

  method XorAt(data: array<byte>, pos: nat, s: seq<byte>)
    requires pos + |s| <= data.Length
    modifies data
    ensures data[..pos] == old(data[..pos]) && data[pos + |s|..] == old(data[pos + |s|..])
    ensures data[pos..pos + |s|] == Xor(old(data[pos..pos + |s|]), s)
  {
    ghost var d := data[pos..pos + |s|];
    var i := 0;
    while i < |s|
      invariant 0 <= i <= |s|
      invariant forall k | 0 <= k < i :: data[pos + k] == d[k] ^ s[k]
      invariant forall k | 0 <= k < data.Length && !(pos <= k < pos + i) :: data[k] == old(data[k])
    {
      assert d[i] == data[pos + i];
      data[pos + i] := data[pos + i] ^ s[i];
      i := i + 1;
    }
    assert forall k | 0 <= k < |s| :: data[pos..pos + |s|][k] == Xor(d, s)[k];
  }

  // ---------- EAX ----------

  /** The prefix block of EAX that holds the number t. */
  function Prefix(t: byte): (r: seq<byte>)
    ensures |r| == BLOCK
  {
    ZERO[..15] + [t]
  }

  function Tag(E: BlockFunction, nonce: seq<byte>, hdr: seq<byte>, cipher: seq<byte>): (r: seq<byte>)
    requires BlockSize(E)
    ensures |r| == BLOCK
  {
    Xor(Xor(Mac(E, Prefix(0) + nonce), Mac(E, Prefix(2) + cipher)), Mac(E, Prefix(1) + hdr))
  }

  lemma PrefixNumber(t: byte)
    ensures BigEndian(Prefix(t)) == t as nat
  {
    var p := Prefix(t);
    assert p[..15] == ZERO[..15] && p[15] == t;
    ZeroNumber(ZERO[..15]);
  }

  lemma {:induction false} ZeroNumber(s: seq<byte>)
    requires forall i | 0 <= i < |s| :: s[i] == 0
    ensures BigEndian(s) == 0
  {
    if s != [] { ZeroNumber(s[..|s| - 1]); }
  }

  /** The tag is the sum of the codes of the nonce, the header and the encrypted data, each behind a block
      that holds its number: 0, 1 and 2. */
  lemma TagBytes(E: BlockFunction, nonce: seq<byte>, hdr: seq<byte>, cipher: seq<byte>, p0: seq<byte>, p1: seq<byte>, p2: seq<byte>, i: nat)
    requires BlockSize(E) && |p0| == |p1| == |p2| == BLOCK && BigEndian(p0) == 0 && BigEndian(p1) == 1 && BigEndian(p2) == 2 && i < BLOCK
    ensures Tag(E, nonce, hdr, cipher)[i] == Mac(E, p0 + nonce)[i] ^ Mac(E, p1 + hdr)[i] ^ Mac(E, p2 + cipher)[i]
  {
    hide Mac, BigEndian, Prefix;
    PrefixNumber(0);
    PrefixNumber(1);
    PrefixNumber(2);
    BigEndianUnique(p0, Prefix(0));
    BigEndianUnique(p1, Prefix(1));
    BigEndianUnique(p2, Prefix(2));
    SwapLast(Mac(E, p0 + nonce)[i], Mac(E, p1 + hdr)[i], Mac(E, p2 + cipher)[i]);
  }

  lemma SwapLast(x: byte, y: byte, z: byte)
    ensures (x ^ z) ^ y == x ^ y ^ z
  {
  }

  /** aes_128_eax_encrypt. */
  method EaxEncrypt(E: BlockFunction, nonce: seq<byte>, hdr: seq<byte>, data: array<byte>) returns (tag: seq<byte>)
    requires BlockSize(E)
    modifies data
    ensures data[..] == Ctr(E, Mac(E, Prefix(0) + nonce), old(data[..]))
    ensures tag == Tag(E, nonce, hdr, data[..])
  {
    hide Mac, Ctr, Xor;
    var nonceMac := Omac1(E, Prefix(0) + nonce);
    var hdrMac := Omac1(E, Prefix(1) + hdr);
    CtrEncrypt(E, nonceMac, data);
    var dataMac := Omac1(E, Prefix(2) + data[..]);
    tag := Xor(Xor(nonceMac, dataMac), hdrMac);
  }

  /** aes_128_eax_decrypt: 0, or -2 for a wrong tag, which leaves the data as it is. */
  method EaxDecrypt(E: BlockFunction, nonce: seq<byte>, hdr: seq<byte>, data: array<byte>, tag: seq<byte>) returns (res: int)
    requires BlockSize(E) && |tag| == BLOCK
    modifies data
    ensures res == if tag == Tag(E, nonce, hdr, old(data[..])) then 0 else -2
    ensures data[..] == if res == 0 then Ctr(E, Mac(E, Prefix(0) + nonce), old(data[..])) else old(data[..])
  {
    hide Mac, Ctr, Xor;
    var nonceMac := Omac1(E, Prefix(0) + nonce);
    var hdrMac := Omac1(E, Prefix(1) + hdr);
    var dataMac := Omac1(E, Prefix(2) + data[..]);
    var expected := Xor(Xor(nonceMac, dataMac), hdrMac);
    var i := 0;
    while i < BLOCK
      invariant 0 <= i <= BLOCK && tag[..i] == expected[..i]
    {
      if tag[i] != expected[i] { return -2; }
      i := i + 1;
    }
    assert tag[..i] == tag && expected[..i] == expected;
    CtrEncrypt(E, nonceMac, data);
    return 0;
  }

  /** Decrypting what was encrypted succeeds and restores the data. */
  method EaxRoundTrip(E: BlockFunction, nonce: seq<byte>, hdr: seq<byte>, data: array<byte>) returns (res: int)
    requires BlockSize(E)
    modifies data
    ensures res == 0 && data[..] == old(data[..])
  {
    hide Mac, Ctr, Tag;
    ghost var d := data[..];
    var tag := EaxEncrypt(E, nonce, hdr, data);
    CtrTwice(E, Mac(E, Prefix(0) + nonce), d);
    res := EaxDecrypt(E, nonce, hdr, data, tag);
  }

  // ---------- CBC ----------

  function CbcEnc(E: BlockFunction, iv: seq<byte>, d: seq<byte>): (r: seq<byte>)
    requires BlockSize(E) && |iv| == BLOCK
    ensures |r| == |d|
    decreases |d|
  {
    if |d| < BLOCK then d else
    var c := E(Xor(iv, d[..BLOCK]));
    c + CbcEnc(E, c, d[BLOCK..])
  }

  function CbcDec(D: BlockFunction, iv: seq<byte>, d: seq<byte>): (r: seq<byte>)
    requires BlockSize(D) && |iv| == BLOCK
    ensures |r| == |d|
    decreases |d|
  {
    if |d| < BLOCK then d else Xor(D(d[..BLOCK]), iv) + CbcDec(D, d[..BLOCK], d[BLOCK..])
  }

  /** Bytes after the last whole block are left alone by both. */
  lemma {:induction false} CbcRoundTrip(E: BlockFunction, D: BlockFunction, iv: seq<byte>, d: seq<byte>)
    requires Cipher(E, D) && BlockSize(E) && BlockSize(D) && |iv| == BLOCK
    ensures CbcDec(D, iv, CbcEnc(E, iv, d)) == d
    decreases |d|
  {
    hide Xor;
    if |d| >= BLOCK {
      var x := Xor(iv, d[..BLOCK]);
      var c, r := E(x), CbcEnc(E, iv, d);
      assert r[..BLOCK] == c && r[BLOCK..] == CbcEnc(E, c, d[BLOCK..]);
      XorBack(iv, d[..BLOCK]);
      CbcRoundTrip(E, D, c, d[BLOCK..]);
      assert d == d[..BLOCK] + d[BLOCK..];
    }
  }

  lemma XorBack(a: seq<byte>, b: seq<byte>)
    requires |a| == |b|
    ensures Xor(Xor(a, b), a) == b
  {
    forall i | 0 <= i < |a|
      ensures (a[i] ^ b[i]) ^ a[i] == b[i]
    {
      Back(a[i], b[i]);
    }
  }

  lemma Back(x: byte, y: byte)
    ensures (x ^ y) ^ x == y
  {
  }

  function BlockOf(d: seq<byte>, k: nat): seq<byte>
    requires BLOCK * k + BLOCK <= |d|
  {
    d[BLOCK * k..BLOCK * k + BLOCK]
  }

  /** Block by block: each block is combined with the encrypted block before it, the first with the initial
      value, and encrypted. */
  lemma {:induction false} CbcBlocks(E: BlockFunction, iv: seq<byte>, d: seq<byte>, k: nat)
    requires BlockSize(E) && |iv| == BLOCK && BLOCK * k + BLOCK <= |d|
    ensures var c := CbcEnc(E, iv, d);
            |c| == |d| && BlockOf(c, k) == E(Xor(if k == 0 then iv else BlockOf(c, k - 1), BlockOf(d, k)))
    decreases k
  {
    hide Xor, BlockOf;
    var c, e := CbcEnc(E, iv, d), E(Xor(iv, d[..BLOCK]));
    var rest := CbcEnc(E, e, d[BLOCK..]);
    assert c == e + rest && c[BLOCK..] == rest && c[..BLOCK] == e;
    FirstBlock(c);
    FirstBlock(d);
    if k > 0 {
      CbcBlocks(E, e, d[BLOCK..], k - 1);
      LaterBlock(c, k);
      LaterBlock(d, k);
      if k > 1 { LaterBlock(c, k - 1); }
    }
  }

  lemma FirstBlock(d: seq<byte>)
    requires BLOCK <= |d|
    ensures BlockOf(d, 0) == d[..BLOCK]
  {
  }

  lemma LaterBlock(d: seq<byte>, k: nat)
    requires 0 < k && BLOCK * k + BLOCK <= |d|
    ensures BlockOf(d, k) == BlockOf(d[BLOCK..], k - 1)
  {
  }

  /** The chaining value of OMAC1 is the last block of this mode from a zero initial value. */
  lemma {:induction false} ChainIsCbc(E: BlockFunction, x: seq<byte>, m: seq<byte>)
    requires BlockSize(E) && |x| == BLOCK && |m| % BLOCK == 0 && m != []
    ensures |CbcEnc(E, x, m)| == |m| && Chain(E, x, m) == CbcEnc(E, x, m)[|m| - BLOCK..]
    decreases |m|
  {
    hide Xor;
    var e := E(Xor(x, m[..BLOCK]));
    var rest := m[BLOCK..];
    if rest == [] {
      assert CbcEnc(E, x, m) == e;
    } else {
      ChainIsCbc(E, e, rest);
      assert CbcEnc(E, x, m) == e + CbcEnc(E, e, rest);
    }
  }

  /** The number of blocks, and whether the last one is complete, in section 2.4 of RFC 4493. */
  function BlockCount(len: nat): nat
  {
    if len == 0 then 1 else (len + 15) / 16
  }

  predicate Complete(len: nat)
  {
    len > 0 && len % 16 == 0
  }

  lemma LastBlock(len: nat)
    ensures LastStart(len) == 16 * (BlockCount(len) - 1) <= len
    ensures len - LastStart(len) == 16 <==> Complete(len)
  {
  }

  /** The code in the words of that section: the last block is combined with the first subkey if it is
      complete, and otherwise padded and combined with the second; the code is the last block of the
      chained encryption. */
  lemma MacIsCbc(E: BlockFunction, m: seq<byte>)
    requires BlockSize(E)
    ensures var k1 := Double(E(ZERO)); var p := LastStart(|m|);
            && (Complete(|m|) <==> |m| - p == BLOCK)
            && var last := if Complete(|m|) then Xor(m[p..], k1) else Xor(PadBlock(m[p..]), Double(k1));
               var c := CbcEnc(E, ZERO, m[..p] + last);
               |c| == p + BLOCK && Mac(E, m) == c[p..]
  {
    hide Xor, PadBlock, Double, CbcEnc, Chain, LastStart, Complete;
    var k1, p := Double(E(ZERO)), LastStart(|m|);
    LastBlock(|m|);
    var last := if Complete(|m|) then Xor(m[p..], k1) else Xor(PadBlock(m[p..]), Double(k1));
    ChainBlock(E, ZERO, m[..p], last);
    Whole(p);
    ChainIsCbc(E, ZERO, m[..p] + last);
  }

  lemma Whole(p: nat)
    requires p % BLOCK == 0
    ensures (p + BLOCK) % BLOCK == 0
  {
  }

  /** aes_128_cbc_encrypt. */
  method CbcEncrypt(E: BlockFunction, iv: seq<byte>, data: array<byte>)
    requires BlockSize(E) && |iv| == BLOCK
    modifies data
    ensures data[..] == CbcEnc(E, iv, old(data[..]))
  {
    hide Xor, CbcEnc;
    ghost var d := data[..];
    var cbc, pos := iv, 0;
    assert data[..0] + CbcEnc(E, iv, data[0..]) == CbcEnc(E, iv, d);
    while pos + BLOCK <= data.Length
      invariant 0 <= pos <= data.Length && |cbc| == BLOCK
      invariant data[..pos] + CbcEnc(E, cbc, data[pos..]) == CbcEnc(E, iv, d)
      decreases data.Length - pos
    {
      ghost var x, before := cbc, data[..];
      cbc := E(Xor(cbc, data[pos..pos + BLOCK]));
      CopyAt(data, pos, cbc);
      CbcEncBlock(E, x, before, data[..], pos);
      pos := pos + BLOCK;
    }
    CbcEncRest(E, cbc, data[pos..]);
  }

  lemma CbcEncBlock(E: BlockFunction, x: seq<byte>, d: seq<byte>, r: seq<byte>, pos: nat)
    requires BlockSize(E) && |x| == BLOCK && pos + BLOCK <= |d| == |r|
    requires r[..pos] == d[..pos] && r[pos + BLOCK..] == d[pos + BLOCK..]
    requires r[pos..pos + BLOCK] == E(Xor(x, d[pos..pos + BLOCK]))
    ensures r[..pos + BLOCK] + CbcEnc(E, r[pos..pos + BLOCK], r[pos + BLOCK..]) == d[..pos] + CbcEnc(E, x, d[pos..])
  {
    hide Xor, CbcEnc;
    Slices(d, pos, BLOCK);
    CbcEncNext(E, x, d[pos..]);
    Advance(d, r, pos, BLOCK, CbcEnc(E, x, d[pos..]), CbcEnc(E, r[pos..pos + BLOCK], d[pos + BLOCK..]));
  }

  lemma CbcEncNext(E: BlockFunction, x: seq<byte>, d: seq<byte>)
    requires BlockSize(E) && |x| == BLOCK <= |d|
    ensures var c := E(Xor(x, d[..BLOCK])); CbcEnc(E, x, d) == c + CbcEnc(E, c, d[BLOCK..])
  {
    hide Xor;
  }

  lemma CbcEncRest(E: BlockFunction, iv: seq<byte>, d: seq<byte>)
    requires BlockSize(E) && |iv| == BLOCK && |d| < BLOCK
    ensures CbcEnc(E, iv, d) == d
  {
  }

  method CopyAt(data: array<byte>, pos: nat, s: seq<byte>)
    requires pos + |s| <= data.Length
    modifies data
    ensures data[..pos] == old(data[..pos]) && data[pos + |s|..] == old(data[pos + |s|..])
    ensures data[pos..pos + |s|] == s
  {
    forall k | pos <= k < pos + |s| { data[k] := s[k - pos]; }
  }

  /** aes_128_cbc_decrypt. */
  method CbcDecrypt(D: BlockFunction, iv: seq<byte>, data: array<byte>)
    requires BlockSize(D) && |iv| == BLOCK
    modifies data
    ensures data[..] == CbcDec(D, iv, old(data[..]))
  {
    hide Xor, CbcDec;
    ghost var d := data[..];
    var cbc, pos := iv, 0;
    assert data[..0] + CbcDec(D, iv, data[0..]) == CbcDec(D, iv, d);
    while pos + BLOCK <= data.Length
      invariant 0 <= pos <= data.Length && |cbc| == BLOCK
      invariant data[..pos] + CbcDec(D, cbc, data[pos..]) == CbcDec(D, iv, d)
      decreases data.Length - pos
    {
      ghost var x, before := cbc, data[..];
      var tmp := data[pos..pos + BLOCK];
      CopyAt(data, pos, Xor(D(tmp), cbc));
      cbc := tmp;
      CbcDecBlock(D, x, before, data[..], pos);
      pos := pos + BLOCK;
    }
    CbcDecRest(D, cbc, data[pos..]);
  }

  lemma CbcDecBlock(D: BlockFunction, x: seq<byte>, d: seq<byte>, r: seq<byte>, pos: nat)
    requires BlockSize(D) && |x| == BLOCK && pos + BLOCK <= |d| == |r|
    requires r[..pos] == d[..pos] && r[pos + BLOCK..] == d[pos + BLOCK..]
    requires r[pos..pos + BLOCK] == Xor(D(d[pos..pos + BLOCK]), x)
    ensures r[..pos + BLOCK] + CbcDec(D, d[pos..pos + BLOCK], r[pos + BLOCK..]) == d[..pos] + CbcDec(D, x, d[pos..])
  {
    hide Xor, CbcDec;
    Slices(d, pos, BLOCK);
    CbcDecNext(D, x, d[pos..]);
    Advance(d, r, pos, BLOCK, CbcDec(D, x, d[pos..]), CbcDec(D, d[pos..pos + BLOCK], d[pos + BLOCK..]));
  }

  lemma CbcDecNext(D: BlockFunction, x: seq<byte>, d: seq<byte>)
    requires BlockSize(D) && |x| == BLOCK <= |d|
    ensures CbcDec(D, x, d) == Xor(D(d[..BLOCK]), x) + CbcDec(D, d[..BLOCK], d[BLOCK..])
  {
    hide Xor;
  }

  lemma CbcDecRest(D: BlockFunction, iv: seq<byte>, d: seq<byte>)
    requires BlockSize(D) && |iv| == BLOCK && |d| < BLOCK
    ensures CbcDec(D, iv, d) == d
  {
  }
}
