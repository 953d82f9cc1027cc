/** The streaming interface of MD5: gen_md5.c of bpalogin.  The compression function MD5Transform
    is any function on a state and a block of 64 bytes. */
module Md5 {
  import opened Arith

  const WORD: int := 0x1_0000_0000
  const DWORD: int := 0x1_0000_0000_0000_0000

  type byte = x: int | 0 <= x < 256
  type word = x: int | 0 <= x < WORD

  datatype State = State(a: word, b: word, c: word, d: word)

  type Compression = (State, seq<byte>) -> State

  const INITIAL := State(0x67452301, 0xefcdab89, 0x98badcfe, 0x10325476)

  // ---------- the hash of a whole message ----------

  /** The compression function over the whole blocks of s; a last incomplete one is left out. */
  function Fold(f: Compression, st: State, s: seq<byte>): State
    decreases |s|
  {
    if |s| < 64 then st else Fold(f, f(st, s[..64]), s[64..])
  }

  lemma {:induction false} FoldAppend(f: Compression, st: State, s: seq<byte>, t: seq<byte>)
    requires |s| % 64 == 0
    ensures Fold(f, st, s + t) == Fold(f, Fold(f, st, s), t)
    decreases |s|
  {
    if s == [] {
      assert s + t == t;
    } else {
      assert (s + t)[..64] == s[..64] && (s + t)[64..] == s[64..] + t;
      FoldAppend(f, f(st, s[..64]), s[64..], t);
    }
  }

  /** Bytes after the last whole block do not matter. */
  lemma FoldRest(f: Compression, st: State, s: seq<byte>, t: seq<byte>)
    requires |s| % 64 == 0 && |t| < 64
    ensures Fold(f, st, s + t) == Fold(f, st, s)
  {
    FoldAppend(f, st, s, t);
  }

  lemma FoldBlock(f: Compression, st: State, s: seq<byte>, block: seq<byte>)
    requires |s| % 64 == 0 && |block| == 64
    ensures Fold(f, st, s + block) == f(Fold(f, st, s), block)
  {
    FoldAppend(f, st, s, block);
    assert block[..64] == block && block[64..] == [];
  }

  function Rest(s: seq<byte>): seq<byte>
  {
    s[|s| - |s| % 64..]
  }

  function Whole(s: seq<byte>): seq<byte>
  {
    s[..|s| - |s| % 64]
  }

  lemma Parts(s: seq<byte>)
    ensures s == Whole(s) + Rest(s) && |Whole(s)| % 64 == 0 && |Rest(s)| == |s| % 64
  {
    DivModUnique(|Whole(s)|, 64, |s| / 64, 0);
  }

  /** A sequence falls into whole blocks and a rest in one way only. */
  lemma PartsUnique(s: seq<byte>, t: seq<byte>)
    requires |s| % 64 == 0 && |t| < 64
    ensures |s + t| % 64 == |t| && Whole(s + t) == s && Rest(s + t) == t
  {
    DivModUnique(|s + t|, 64, |s| / 64, |t|);
  }

  lemma FoldWhole(f: Compression, st: State, s: seq<byte>)
    ensures Fold(f, st, s) == Fold(f, st, Whole(s))
  {
    hide Fold, Whole, Rest;
    Parts(s);
    FoldRest(f, st, Whole(s), Rest(s));
  }

  lemma FoldEmpty(f: Compression, st: State)
    ensures Fold(f, st, []) == st && Rest([]) == []
  {
  }

  lemma NoBits()
    ensures CountIs(0, 0, 0)
  {
    DivModUnique(0, DWORD, 0, 0);
  }

  /** The word in the four bytes from i on, low-order byte first. */
  function ReadWord(s: seq<byte>, i: nat): int
    requires i + 4 <= |s|
  {
    var b0: int, b1: int, b2: int, b3: int := s[i], s[i + 1], s[i + 2], s[i + 3];
    b0 + 0x100 * b1 + 0x1_0000 * b2 + 0x100_0000 * b3
  }

  /** The four bytes of a word, low-order first, as sections 3.2 and 3.5 of RFC 1321 ask. */
  function WordBytes(w: word): (r: seq<byte>)
    ensures |r| == 4 && ReadWord(r, 0) == w
  {
    [w % 256, w / 0x100 % 256, w / 0x1_0000 % 256, w / 0x100_0000]
  }

  function LengthBytes(bits: int): (r: seq<byte>)
    ensures |r| == 8
  {
    var n := bits % DWORD;
    WordBytes(n % WORD) + WordBytes(n / WORD)
  }

  /** The number of padding bytes: one to 64, up to 56 modulo 64. */
  function PadLength(n: nat): (k: nat)
    ensures 1 <= k <= 64 && (n + k) % 64 == 56
  {
    if n % 64 < 56 then 56 - n % 64 else 120 - n % 64
  }

  function Padding(k: nat): seq<byte>
  {
    seq(k, i => if i == 0 then 0x80 else 0)
  }

  /** Sections 3.1 and 3.2 of RFC 1321. */
  function Padded(m: seq<byte>): seq<byte>
  {
    m + Padding(PadLength(|m|)) + LengthBytes(8 * |m|)
  }

  function StateBytes(st: State): seq<byte>
  {
    WordBytes(st.a) + WordBytes(st.b) + WordBytes(st.c) + WordBytes(st.d)
  }

  /** MD5 of a message in one piece. */
  function Digest(f: Compression, m: seq<byte>): seq<byte>
  {
    StateBytes(Fold(f, INITIAL, Padded(m)))
  }

  /** Section 3.3 of RFC 1321, which gives the words by their bytes, low-order first. */
  lemma InitialWords()
    ensures INITIAL.a == ReadWord([0x01, 0x23, 0x45, 0x67], 0) && INITIAL.b == ReadWord([0x89, 0xab, 0xcd, 0xef], 0)
    ensures INITIAL.c == ReadWord([0xfe, 0xdc, 0xba, 0x98], 0) && INITIAL.d == ReadWord([0x76, 0x54, 0x32, 0x10], 0)
  {
  }

  /** The padded message: whole blocks, the fewest that hold the message, a one bit and the length; zeros
      between; and at the end the number of bits, low-order byte first. */
  lemma PaddedMeaning(m: seq<byte>)
    ensures var p := Padded(m); var n := |p| - 8;
            && |p| % 64 == 0 && |m| + 9 <= |p| < |m| + 9 + 64 && p[..|m|] == m && p[|m|] == 0x80
            && (forall k | |m| < k < n :: p[k] == 0)
            && ReadWord(p, n) + WORD * ReadWord(p, n + 4) == 8 * |m| % DWORD
  {
    var p, k := Padded(m), PadLength(|m|);
    var n := |m| + k;
    assert |p| == n + 8;
    DivModUnique(|p|, 64, n / 64 + 1, 0);
    LengthMeaning(8 * |m|);
    assert p[n..] == LengthBytes(8 * |m|);
    assert forall i | 0 <= i < 8 :: p[n + i] == LengthBytes(8 * |m|)[i];
  }

  lemma LengthMeaning(bits: int)
    ensures var r := LengthBytes(bits); ReadWord(r, 0) + WORD * ReadWord(r, 4) == bits % DWORD
  {
    var n := bits % DWORD;
    var r, lo, hi := LengthBytes(bits), WordBytes(n % WORD), WordBytes(n / WORD);
    assert forall i | 0 <= i < 4 :: r[i] == lo[i] && r[4 + i] == hi[i];
  }

  /** The digest: the four words of the state, low-order bytes first. */
  lemma DigestWords(f: Compression, m: seq<byte>)
    ensures var r := Digest(f, m); var st := Fold(f, INITIAL, Padded(m));
            |r| == 16 && ReadWord(r, 0) == st.a && ReadWord(r, 4) == st.b && ReadWord(r, 8) == st.c && ReadWord(r, 12) == st.d
  {
    var r, st := Digest(f, m), Fold(f, INITIAL, Padded(m));
    hide Fold, Padded, WordBytes;
    var a, b, c, d := WordBytes(st.a), WordBytes(st.b), WordBytes(st.c), WordBytes(st.d);
    assert forall i | 0 <= i < 4 :: r[i] == a[i] && r[4 + i] == b[i] && r[8 + i] == c[i] && r[12 + i] == d[i];
  }

  // ---------- the context ----------

  /** The two words of the count hold n modulo 2^64. */
  predicate CountIs(c0: word, c1: word, n: int)
  {
    c0 + WORD * c1 == n % DWORD
  }

  /** The carries of the two-word addition. */
  lemma BitSum(c0: word, c1: word, bits: int, n: word, low: int, sum: int, carry: int, top: int)
    requires CountIs(c0, c1, bits) && low == 8 * n - WORD * (n / 0x2000_0000) && 0 <= low < WORD
    requires sum == (c0 + low) % WORD && carry == (if sum < low then 1 else 0)
    requires top == (c1 + carry + n / 0x2000_0000) % WORD
    ensures 0 <= sum < WORD && 0 <= top < WORD && CountIs(sum, top, bits + 8 * n)
  {
    var q := n / 0x2000_0000;
    assert c0 + low == sum + WORD * carry;
    var k := (c1 + carry + q) / WORD;
    assert c1 + carry + q == top + WORD * k;
    var j := bits / DWORD;
    assert bits == c0 + WORD * c1 + DWORD * j;
    DivModUnique(bits + 8 * n, DWORD, j + k, sum + WORD * top);
  }

  class Context {
    const f: Compression
    var state: State
    var count0: word
    var count1: word
    const buffer: array<byte>
    /** Everything hashed since MD5Init. */
    ghost var message: seq<byte>

    /** The context is determined by the message, however it was cut. */
    ghost predicate Valid()
      reads this, buffer
    {
      && buffer.Length == 64 && state == Fold(f, INITIAL, message)
      && buffer[..|message| % 64] == Rest(message)
      && CountIs(count0, count1, 8 * |message|)
    }

    /** MD5Init. */
    constructor (f: Compression)
      ensures Valid() && message == [] && this.f == f && fresh(buffer)
    {
      this.f := f;
      state, count0, count1 := INITIAL, 0, 0;
      buffer := new byte[64](_ => 0);
      message := [];
      new;
      hide Fold, Rest, CountIs;
      FoldEmpty(f, INITIAL);
      NoBits();
    }

    /** MD5_memcpy into the buffer. */
    method Fill(index: nat, input: seq<byte>, from: nat, n: nat)
      requires buffer.Length == 64 && index + n <= 64 && from + n <= |input|
      modifies buffer
      ensures buffer[..index] == old(buffer[..index]) && buffer[index..index + n] == input[from..from + n]
    {
      var i := 0;
      while i < n
        invariant 0 <= i <= n && buffer[..index] == old(buffer[..index])
        invariant forall k | index <= k < index + i :: buffer[k] == input[from + (k - index)]
      {
        buffer[index + i] := input[from + i];
        i := i + 1;
      }
    }

    /** The bit count of MD5Update, in two words. */
    method AddBits(n: word, ghost bits: int)
      requires CountIs(count0, count1, bits)
      modifies this`count0, this`count1
      ensures CountIs(count0, count1, bits + 8 * n)
    {
      hide CountIs;
      var low := (8 * n) % WORD;
      var sum, top := (count0 + low) % WORD, count1 + n / 0x2000_0000;
      LowBits(n);
      BitSum(count0, count1, bits, n, low, sum, if sum < low then 1 else 0, (if sum < low then top + 1 else top) % WORD);
      count0 := sum;
      if sum < low { top := top + 1; }
      count1 := top % WORD;
    }

    /** The transformations of MD5Update: the filled buffer, then the whole blocks of the input. */
    method Transform(index: nat, input: seq<byte>, ghost m: seq<byte>) returns (i: nat)
      requires buffer.Length == 64 && index == |m| % 64 && 64 - index <= |input|
      requires state == Fold(f, INITIAL, m) && buffer[..index] == Rest(m)
      modifies this`state, buffer
      ensures i <= |input| < i + 64 && (|m| + i) % 64 == 0 && state == Fold(f, INITIAL, m + input[..i])
    {
      hide Fold, Rest;
      i := 64 - index;
      Fill(index, input, 0, i);
      assert buffer[index..] == buffer[index..index + i] && buffer[..][..index] == buffer[..index];
      BufferFull(f, m, input, i, buffer[..]);
      state := f(state, buffer[..]);
      while i + 63 < |input|
        invariant 0 <= i <= |input| && (|m| + i) % 64 == 0
        invariant state == Fold(f, INITIAL, m + input[..i])
        decreases |input| - i
      {
        NextBlock(f, m, input, i);
        state := f(state, input[i..i + 64]);
        i := i + 64;
      }
    }

    /** MD5Update. */
    method Update(input: seq<byte>)
      requires Valid() && |input| < WORD - 63
      modifies this, buffer
      ensures Valid() && message == old(message) + input
    {
      hide CountIs, Fold, Rest;
      ghost var m := message;
      CountIndex(count0, count1, |m|);
      var index := count0 / 8 % 64;
      AddBits(|input|, 8 * |m|);
      var i := 0;
      if |input| >= 64 - index {
        i := Transform(index, input, m);
        index := 0;
        AfterBlocks(f, m, input, i);
      } else {
        WithinBlock(f, m, input);
      }
      var n := |input| - i;
      Fill(index, input, i, n);
      message := message + input;
      assert buffer[..index + n] == buffer[..index] + buffer[index..index + n];
      assert input[i..i + n] == input[i..];
    }

    /** MD5Final: the digest of everything hashed, however it was cut into updates. */
    method Final() returns (digest: seq<byte>)
      requires Valid()
      modifies this, buffer
      ensures digest == Digest(f, old(message)) && |digest| == 16
      ensures var st := Fold(f, INITIAL, Padded(old(message)));
              && ReadWord(digest, 0) == st.a && ReadWord(digest, 4) == st.b
              && ReadWord(digest, 8) == st.c && ReadWord(digest, 12) == st.d
      ensures state == State(0, 0, 0, 0) && count0 == 0 == count1 && forall k | 0 <= k < 64 :: buffer[k] == 0
    {
      hide CountIs, Fold, Rest;
      ghost var m := message;
      CountBytes(count0, count1, 8 * |m|);
      CountIndex(count0, count1, |m|);
      var bits := WordBytes(count0) + WordBytes(count1);
      var index := count0 / 8 % 64;
      var pad := if index < 56 then 56 - index else 120 - index;
      Update(Padding(pad));
      Update(bits);
      digest := StateBytes(state);
      DigestWords(f, m);
      state, count0, count1 := State(0, 0, 0, 0), 0, 0;
      forall k | 0 <= k < 64 { buffer[k] := 0; }
    }
  }

  lemma CountBytes(c0: word, c1: word, bits: nat)
    requires CountIs(c0, c1, bits)
    ensures WordBytes(c0) + WordBytes(c1) == LengthBytes(bits)
  {
    DivModUnique(bits % DWORD, WORD, c1, c0);
  }

  lemma LowBits(n: word)
    ensures (8 * n) % WORD == 8 * n - WORD * (n / 0x2000_0000)
  {
    DivModUnique(8 * n, WORD, n / 0x2000_0000, 8 * (n % 0x2000_0000));
  }

  lemma CountIndex(c0: word, c1: word, n: nat)
    requires CountIs(c0, c1, 8 * n)
    ensures c0 / 8 % 64 == n % 64
  {
    var j := 8 * n / DWORD;
    var c: int := c0;
    var e := 0x2000_0000 * c1 + 0x2000_0000_0000_0000 * j;
    assert 8 * n == c + 8 * e;
    assert c / 8 == n - e;
    DivModUnique(n, 64, (n - e) / 64 + e / 64, (n - e) % 64);
  }

  /** The first block: what the buffer held and the beginning of the input. */
  lemma BufferFull(f: Compression, m: seq<byte>, input: seq<byte>, part: nat, buffer: seq<byte>)
    requires part == 64 - |m| % 64 <= |input| && |buffer| == 64
    requires buffer[..|m| % 64] == Rest(m) && buffer[|m| % 64..] == input[..part]
    ensures Fold(f, INITIAL, m + input[..part]) == f(Fold(f, INITIAL, m), buffer) && (|m| + part) % 64 == 0
  {
    hide Fold, Whole, Rest;
    Parts(m);
    FoldWhole(f, INITIAL, m);
    FoldBlock(f, INITIAL, Whole(m), buffer);
    assert buffer == Rest(m) + input[..part];
    assert m + input[..part] == Whole(m) + buffer;
    DivModUnique(|m| + part, 64, |m| / 64 + 1, 0);
  }

  lemma NextBlock(f: Compression, m: seq<byte>, input: seq<byte>, i: nat)
    requires i + 64 <= |input| && (|m| + i) % 64 == 0
    ensures Fold(f, INITIAL, m + input[..i + 64]) == f(Fold(f, INITIAL, m + input[..i]), input[i..i + 64])
  {
    hide Fold;
    FoldBlock(f, INITIAL, m + input[..i], input[i..i + 64]);
    assert m + input[..i + 64] == m + input[..i] + input[i..i + 64];
  }

  lemma AfterBlocks(f: Compression, m: seq<byte>, input: seq<byte>, i: nat)
    requires i <= |input| < i + 64 && (|m| + i) % 64 == 0
    ensures |m + input| % 64 == |input| - i && Rest(m + input) == input[i..]
    ensures Fold(f, INITIAL, m + input) == Fold(f, INITIAL, m + input[..i])
  {
    hide Fold, Whole, Rest;
    assert m + input == (m + input[..i]) + input[i..];
    PartsUnique(m + input[..i], input[i..]);
    FoldWhole(f, INITIAL, m + input);
  }

  lemma WithinBlock(f: Compression, m: seq<byte>, input: seq<byte>)
    requires |m| % 64 + |input| < 64
    ensures |m + input| % 64 == |m| % 64 + |input| && Rest(m + input) == Rest(m) + input
    ensures Fold(f, INITIAL, m + input) == Fold(f, INITIAL, m)
  {
    hide Fold, Whole, Rest;
    Parts(m);
    assert m + input == Whole(m) + (Rest(m) + input);
    PartsUnique(Whole(m), Rest(m) + input);
    FoldWhole(f, INITIAL, m);
    FoldWhole(f, INITIAL, m + input);
  }
}
