/** Streaming SHA-256. The specification is that of FIPS 180-4 (padding in section
    5.1.1, the hash computation in section 6.2.2); the context object buffers partial
    blocks, and whatever way a message is cut into updates the digest is the same. */
module Sha256 {

  import opened Bytes
  import opened Words

  type Block = b: seq<Byte> | |b| == 64 witness seq(64, _ => 0)
  type Hash = h: seq<Word> | |h| == 8 witness seq(8, _ => 0)

  const BLOCK: nat := 64
  const TWO64: nat := 0x1_0000_0000_0000_0000

  /** The round constants of section 4.2.2 of FIPS 180-4. */
  function K(): (k: seq<Word>)
    ensures |k| == 64
  {
    [0x428a2f98, 0x71374491, 0xb5c0fbcf, 0xe9b5dba5, 0x3956c25b, 0x59f111f1, 0x923f82a4, 0xab1c5ed5] +
    [0xd807aa98, 0x12835b01, 0x243185be, 0x550c7dc3, 0x72be5d74, 0x80deb1fe, 0x9bdc06a7, 0xc19bf174] +
    [0xe49b69c1, 0xefbe4786, 0x0fc19dc6, 0x240ca1cc, 0x2de92c6f, 0x4a7484aa, 0x5cb0a9dc, 0x76f988da] +
    [0x983e5152, 0xa831c66d, 0xb00327c8, 0xbf597fc7, 0xc6e00bf3, 0xd5a79147, 0x06ca6351, 0x14292967] +
    [0x27b70a85, 0x2e1b2138, 0x4d2c6dfc, 0x53380d13, 0x650a7354, 0x766a0abb, 0x81c2c92e, 0x92722c85] +
    [0xa2bfe8a1, 0xa81a664b, 0xc24b8b70, 0xc76c51a3, 0xd192e819, 0xd6990624, 0xf40e3585, 0x106aa070] +
    [0x19a4c116, 0x1e376c08, 0x2748774c, 0x34b0bcb5, 0x391c0cb3, 0x4ed8aa4a, 0x5b9cca4f, 0x682e6ff3] +
    [0x748f82ee, 0x78a5636f, 0x84c87814, 0x8cc70208, 0x90befffa, 0xa4506ceb, 0xbef9a3f7, 0xc67178f2]
  }

  const H0: Hash := [0x6a09e667, 0xbb67ae85, 0x3c6ef372, 0xa54ff53a, 0x510e527f, 0x9b05688c, 0x1f83d9ab, 0x5be0cd19]

  // ------------------------------------------- section 6.2.2 of FIPS 180-4

  /** Addition modulo two to the 32. */
  function Add(x: Word, y: Word): Word { x + y }

  function SmallSigma0(x: Word): Word { Rotr(x, 7) ^ Rotr(x, 18) ^ (x >> 3) }
  function SmallSigma1(x: Word): Word { Rotr(x, 17) ^ Rotr(x, 19) ^ (x >> 10) }
  function BigSigma0(x: Word): Word { Rotr(x, 2) ^ Rotr(x, 13) ^ Rotr(x, 22) }
  function BigSigma1(x: Word): Word { Rotr(x, 6) ^ Rotr(x, 11) ^ Rotr(x, 25) }
  function Ch(x: Word, y: Word, z: Word): Word { (x & y) ^ ((!x) & z) }
  function Maj(x: Word, y: Word, z: Word): Word { (x & y) ^ (x & z) ^ (y & z) }

  /** The `i`-th big-endian word of a block. */
  function BlockWord(b: Block, i: nat): Word
    requires i < 16
  {
    Pack(b[4 * i], b[4 * i + 1], b[4 * i + 2], b[4 * i + 3])
  }

  /** The message schedule. */
  function Schedule(b: Block, t: nat): Word
    requires t < 64
  {
    if t < 16 then BlockWord(b, t)
    else Add(Add(Add(Schedule(b, t - 16), SmallSigma0(Schedule(b, t - 15))), Schedule(b, t - 7)),
      SmallSigma1(Schedule(b, t - 2)))
  }

  /** The eight working variables. */
  datatype Vars = Vars(a: Word, b: Word, c: Word, d: Word, e: Word, f: Word, g: Word, h: Word)

  function Step(v: Vars, k: Word, w: Word): Vars {
    var t1 := Add(Add(Add(Add(v.h, BigSigma1(v.e)), Ch(v.e, v.f, v.g)), k), w);
    var t2 := Add(BigSigma0(v.a), Maj(v.a, v.b, v.c));
    Vars(Add(t1, t2), v.a, v.b, v.c, Add(v.d, t1), v.e, v.f, v.g)
  }

  function Steps(v: Vars, b: Block, t: nat): Vars
    requires t <= 64
  {
    if t == 0 then v else Step(Steps(v, b, t - 1), K()[t - 1], Schedule(b, t - 1))
  }

  function Load(h: Hash): Vars { Vars(h[0], h[1], h[2], h[3], h[4], h[5], h[6], h[7]) }

  function Pick(v: Vars, i: nat): Word
    requires i < 8
  {
    if i == 0 then v.a else if i == 1 then v.b else if i == 2 then v.c else if i == 3 then v.d
    else if i == 4 then v.e else if i == 5 then v.f else if i == 6 then v.g else v.h
  }

  function Compress(h: Hash, b: Block): Hash {
    var v := Steps(Load(h), b, 64);
    seq(8, i requires 0 <= i < 8 => Add(h[i], Pick(v, i)))
  }

  /** The compression function folded over whole blocks. */
  function Fold(h: Hash, data: seq<Byte>): Hash
    requires |data| % BLOCK == 0
    decreases |data|
  {
    if data == [] then h else Fold(Compress(h, data[..BLOCK]), data[BLOCK..])
  }

  // ------------------------------------------- section 5.1.1 of FIPS 180-4

  function Zeros(n: nat): (z: seq<Byte>)
    ensures |z| == n
  {
    seq(n, _ => 0)
  }

  /** `n` shifted right by `k` bytes. */
  function ShiftRight(n: nat, k: nat): nat { if k == 0 then n else ShiftRight(n / 256, k - 1) }

  /** The `k` low bytes of `n`, big-endian. */
  function BigEndian(n: nat, k: nat): (f: seq<Byte>)
    ensures |f| == k
  {
    seq(k, i requires 0 <= i < k => ShiftRight(n, k - 1 - i) % 256)
  }

  function LengthField(n: nat): (f: seq<Byte>)
    ensures |f| == 8
  {
    BigEndian(n, 8)
  }

  function BitLength(bytes: nat): nat { (8 * bytes) % TWO64 }

  /** The least number of zero bytes that fills the last block. */
  function Gap(n: nat): nat { (119 - n % BLOCK) % BLOCK }

  function Pad(m: seq<Byte>): seq<Byte> { m + [0x80] + Zeros(Gap(|m|)) + LengthField(BitLength(|m|)) }

  lemma PadIsWhole(m: seq<Byte>)
    ensures |Pad(m)| % BLOCK == 0
  {
    GapFills(|m|);
    hide Gap, LengthField, Zeros, BitLength;
  }

  lemma GapFills(n: nat)
    ensures (n + 1 + Gap(n) + 8) % BLOCK == 0
  {}

  function WordByte(w: Word, i: nat): Byte
    requires i < 4
  {
    ShiftRight(Num(w), 3 - i) % 256
  }

  function Output(h: Hash): seq<Byte> { seq(32, i requires 0 <= i < 32 => WordByte(h[i / 4], i % 4)) }

  function Digest(m: seq<Byte>): seq<Byte> {
    PadIsWhole(m);
    Output(Fold(H0, Pad(m)))
  }

  // ------------------------------------------------ the padding can be undone

  function Value(f: seq<Byte>): nat { if f == [] then 0 else 256 * Value(f[..|f| - 1]) + f[|f| - 1] }

  lemma {:induction false} BigEndianValue(n: nat, k: nat)
    requires ShiftRight(n, k) == 0
    ensures Value(BigEndian(n, k)) == n
  {
    if k > 0 {
      BigEndianValue(n / 256, k - 1);
      var f, g := BigEndian(n, k), BigEndian(n / 256, k - 1);
      forall i | 0 <= i < k - 1 ensures f[i] == g[i] {
        assert ShiftRight(n, k - 1 - i) == ShiftRight(n / 256, k - 2 - i);
      }
      assert f[..k - 1] == g;
      assert ShiftRight(n, 0) == n && f[k - 1] == ShiftRight(n, 0) % 256;
    }
  }

  function Pow256(k: nat): nat { if k == 0 then 1 else 256 * Pow256(k - 1) }

  lemma {:induction false} ShiftedOut(n: nat, k: nat)
    requires n < Pow256(k)
    ensures ShiftRight(n, k) == 0
  {
    if k > 0 { ShiftedOut(n / 256, k - 1); }
  }

  lemma EightBytes()
    ensures Pow256(8) == TWO64
  {
    assert Pow256(2) == 0x1_0000;
    assert Pow256(4) == 0x1_0000_0000;
    assert Pow256(6) == 0x1_0000_0000_0000;
  }

  /** No two messages that the length field can tell apart have the same padding. */
  lemma PadInjective(m: seq<Byte>, n: seq<Byte>)
    requires 8 * |m| < TWO64 && 8 * |n| < TWO64 && Pad(m) == Pad(n)
    ensures m == n
  {
    hide BigEndian, ShiftRight, Gap, Zeros, Value, Pow256;
    var k := |Pad(m)|;
    assert Pad(m)[k - 8..] == LengthField(8 * |m|) && Pad(n)[k - 8..] == LengthField(8 * |n|);
    EightBytes();
    ShiftedOut(8 * |m|, 8);
    ShiftedOut(8 * |n|, 8);
    BigEndianValue(8 * |m|, 8);
    BigEndianValue(8 * |n|, 8);
    assert Pad(m)[..|m|] == m && Pad(n)[..|n|] == n;
  }

  // ------------------------------------------------------- words as numbers

  lemma FourByteValue(f: seq<Byte>)
    requires |f| == 4
    ensures Value(f) == BigEndian4(f[0], f[1], f[2], f[3])
  {
    var g, h := f[..3], f[..2];
    var p: int, q: int, r: int := f[0], f[1], f[2];
    assert g[..2] == h && h[..1] == [f[0]] && Value([]) == 0 && Value(h[..1]) == p;
    assert Value(h) == 256 * p + q;
    assert Value(g) == 256 * Value(h) + r;
  }

  /** A word of a block is the number that its four bytes denote, the first the highest. */
  lemma BlockWordValue(b: Block, i: nat)
    requires i < 16
    ensures Num(BlockWord(b, i)) == Value(b[4 * i..4 * i + 4])
  {
    hide Num, Value, BigEndian4, Pack;
    FourByteValue(b[4 * i..4 * i + 4]);
    FromBytes(b[4 * i], b[4 * i + 1], b[4 * i + 2], b[4 * i + 3]);
  }

  lemma BytesOf(n: nat, p: Byte, q: Byte, r: Byte, s: Byte)
    requires n == BigEndian4(p, q, r, s)
    ensures ShiftRight(n, 0) % 256 == s && ShiftRight(n, 1) % 256 == r
    ensures ShiftRight(n, 2) % 256 == q && ShiftRight(n, 3) % 256 == p
  {
    var x: int, y: int, z: int := p, q, r;
    var n1 := 0x1_0000 * x + 0x100 * y + z;
    var n2 := 0x100 * x + y;
    assert n / 256 == n1 && n1 / 256 == n2 && n2 / 256 == p;
    assert ShiftRight(n, 1) == ShiftRight(n1, 0) && ShiftRight(n, 2) == ShiftRight(n1, 1) == ShiftRight(n2, 0);
    assert ShiftRight(n, 3) == ShiftRight(n1, 2) == ShiftRight(n2, 1) == ShiftRight(p, 0);
  }

  lemma Quarters(n: nat) returns (p: Byte, q: Byte, r: Byte, s: Byte)
    requires n < 0x1_0000_0000
    ensures n == BigEndian4(p, q, r, s)
  {
    var a := n / 256;
    var b := a / 256;
    p, q, r, s := b / 256, b % 256, a % 256, n % 256;
  }

  /** The output is the chaining value, word by word, the highest byte first. */
  lemma OutputValue(h: Hash, i: nat)
    requires i < 8
    ensures Value(Output(h)[4 * i..4 * i + 4]) == Num(h[i])
  {
    hide Num, Value, BigEndian4, ShiftRight;
    var p, q, r, s := Quarters(Num(h[i]));
    BytesOf(Num(h[i]), p, q, r, s);
    FourByteValue(Output(h)[4 * i..4 * i + 4]);
  }

  /** And the bytes with those values are the output. */
  lemma OutputIs(h: Hash, d: seq<Byte>)
    requires |d| == 32
    requires forall i :: 0 <= i < 8 ==> Num(h[i]) == BigEndian4(d[4 * i], d[4 * i + 1], d[4 * i + 2], d[4 * i + 3])
    ensures Output(h) == d
  {
    hide Num, BigEndian4, ShiftRight;
    forall k | 0 <= k < 32 ensures Output(h)[k] == d[k] {
      var i := k / 4;
      BytesOf(Num(h[i]), d[4 * i], d[4 * i + 1], d[4 * i + 2], d[4 * i + 3]);
    }
  }

  // ----------------------------------------------------------- folding in pieces

  lemma {:induction false} FoldAppend(h: Hash, a: seq<Byte>, b: seq<Byte>)
    requires |a| % BLOCK == 0 && |b| % BLOCK == 0
    ensures (|a| + |b|) % BLOCK == 0 && Fold(h, a + b) == Fold(Fold(h, a), b)
    decreases |a|
  {
    hide Compress;
    if a == [] {
      assert a + b == b;
    } else {
      FoldAppend(Compress(h, a[..BLOCK]), a[BLOCK..], b);
      assert (a + b)[..BLOCK] == a[..BLOCK] && (a + b)[BLOCK..] == a[BLOCK..] + b;
    }
  }

  lemma FoldNone(h: Hash)
    ensures Fold(h, []) == h
  {}

  lemma FoldOne(h: Hash, a: seq<Byte>, b: Block)
    requires |a| % BLOCK == 0
    ensures (|a| + 64) % BLOCK == 0 && Fold(h, a + b) == Compress(Fold(h, a), b)
  {
    hide Compress;
    FoldAppend(h, a, b);
    assert b[..BLOCK] == b && b[BLOCK..] == [];
  }

  lemma CountMod(n: nat, k: nat)
    ensures (n % TWO64 + k) % TWO64 == (n + k) % TWO64
  {}

  /** The zeros run to the end of this block or, when the length field has no room
      there, on into the next one. */
  lemma GapIs(d: nat, t: nat)
    requires d % BLOCK == 0 && t < BLOCK
    ensures Gap(d + t) == if t < 56 then 55 - t else 119 - t
  {}

  lemma PadIs(m: seq<Byte>, z: nat, y: nat, f: seq<Byte>)
    requires z + y == Gap(|m|) && f == LengthField(BitLength(|m|))
    ensures m + [0x80] + Zeros(z) + Zeros(y) + f == Pad(m)
  {
    hide Gap, LengthField, BitLength;
    assert Zeros(z) + Zeros(y) == Zeros(z + y);
    Assoc(m + [0x80], Zeros(z), Zeros(y));
  }

  lemma Assoc(a: seq<Byte>, b: seq<Byte>, c: seq<Byte>)
    ensures a + b + c == a + (b + c)
  {}

  lemma BitMod(n: nat)
    ensures ((n % TWO64) * 8) % TWO64 == BitLength(n)
  {
    var q := n / TWO64;
    assert 8 * n == TWO64 * (8 * q) + (n % TWO64) * 8;
    ModShift(8 * q, (n % TWO64) * 8);
  }

  lemma {:induction false} ModShift(q: nat, r: nat)
    ensures (TWO64 * q + r) % TWO64 == r % TWO64
  {
    if q > 0 {
      ModShift(q - 1, r);
      assert TWO64 * q + r == TWO64 * (q - 1) + r + TWO64;
    }
  }

  class Context {
    const state: array<Word>
    const block: array<Byte>
    var blockLen: nat
    var totalLen: nat
    /** The bytes already compressed. */
    ghost var done: seq<Byte>

    /** The chaining value is that of whole blocks. */
    ghost predicate Chained()
      reads this, state, block
    {
      state.Length == 8 && block.Length == 64 && blockLen <= BLOCK && |done| % BLOCK == 0 && state[..] == Fold(H0, done)
    }

    ghost predicate Valid()
      reads this, state, block
    {
      Chained() && blockLen < BLOCK && totalLen == (|done| + blockLen) % TWO64
    }

    /** The message fed so far. */
    ghost function Message(): seq<Byte>
      requires Chained()
      reads this, state, block
    {
      done + block[..blockLen]
    }

    /** `sha256_init`. */
    constructor ()
      ensures Valid() && Message() == [] && fresh(state) && fresh(block)
    {
      hide Fold;
      FoldNone(H0);
      state := new Word[8](i requires 0 <= i < 8 => H0[i]);
      block := new Byte[64](_ => 0);
      blockLen, totalLen, done := 0, 0, [];
      new;
      assert state[..] == H0;
    }

    /** `sha256_compress`. */
    method CompressBlock(b: Block)
      requires state.Length == 8
      modifies state
      ensures state[..] == Compress(old(state[..]), b)
    {
      hide Add, Steps, Load, Pick;
      var w := new Word[64];
      FillSchedule(w, b);
      var v := RunSteps(w, b);
      for i := 0 to 8
        invariant forall j :: 0 <= j < i ==> state[j] == Add(old(state[j]), Pick(v, j))
        invariant forall j :: i <= j < 8 ==> state[j] == old(state[j])
      {
        state[i] := Add(state[i], Pick(v, i));
      }
    }

    static method FillSchedule(w: array<Word>, b: Block)
      requires w.Length == 64
      modifies w
      ensures forall j :: 0 <= j < 64 ==> w[j] == Schedule(b, j)
    {
      hide Add, SmallSigma0, SmallSigma1, BlockWord;
      for i := 0 to 16
        invariant forall j :: 0 <= j < i ==> w[j] == Schedule(b, j)
      {
        w[i] := BlockWord(b, i);
      }
      for i := 16 to 64
        invariant forall j :: 0 <= j < i ==> w[j] == Schedule(b, j)
      {
        var s0 := SmallSigma0(w[i - 15]);
        var s1 := SmallSigma1(w[i - 2]);
        w[i] := Add(Add(Add(w[i - 16], s0), w[i - 7]), s1);
      }
    }

    method RunSteps(w: array<Word>, b: Block) returns (v: Vars)
      requires state.Length == 8 && w.Length == 64 && forall j :: 0 <= j < 64 ==> w[j] == Schedule(b, j)
      ensures v == Steps(Load(state[..]), b, 64)
    {
      hide Add, BigSigma0, BigSigma1, Ch, Maj, K, Schedule;
      var a, bb, c, d := state[0], state[1], state[2], state[3];
      var e, f, g, h := state[4], state[5], state[6], state[7];
      for i := 0 to 64
        invariant Vars(a, bb, c, d, e, f, g, h) == Steps(Load(state[..]), b, i)
      {
        var t1 := Add(Add(Add(Add(h, BigSigma1(e)), Ch(e, f, g)), K()[i]), w[i]);
        var t2 := Add(BigSigma0(a), Maj(a, bb, c));
        h, g, f, e := g, f, e, Add(d, t1);
        d, c, bb, a := c, bb, a, Add(t1, t2);
      }
      v := Vars(a, bb, c, d, e, f, g, h);
    }

    // ------------------------------------------------------- feeding and finishing

    /** One more whole block. */
    method Absorb(b: Block)
      requires Chained()
      modifies state, `done
      ensures Chained() && done == old(done) + b
    {
      FoldOne(H0, done, b);
      hide Fold, Compress;
      CompressBlock(b);
      done := done + b;
    }

    /** `memcpy` into the buffer at `blockLen`. */
    method Buffer(p: seq<Byte>)
      requires Chained() && blockLen + |p| <= BLOCK
      modifies block, `blockLen
      ensures Chained() && blockLen == old(blockLen) + |p|
      ensures Message() == old(Message()) + p
    {
      hide Fold;
      ghost var was := block[..blockLen];
      var at := blockLen;
      for i := 0 to |p|
        invariant block[..at + i] == was + p[..i] && blockLen == at
      {
        block[at + i] := p[i];
        assert block[..at + i + 1] == block[..at + i] + [p[i]];
        assert p[..i + 1] == p[..i] + [p[i]];
      }
      assert p[..|p|] == p;
      blockLen := blockLen + |p|;
    }

    /** The full buffer is compressed. */
    method Flush()
      requires Chained() && blockLen == BLOCK
      modifies state, `done, `blockLen
      ensures Chained() && blockLen == 0 && Message() == done == old(Message())
    {
      hide Fold;
      assert block[..blockLen] == block[..];
      Absorb(block[..]);
      blockLen := 0;
    }

    /** `sha256_update`: whatever is waiting in the buffer, the bytes are appended to
        the message. */
    method Update(data: seq<Byte>)
      requires Valid()
      modifies this, state, block
      ensures Valid() && Message() == old(Message()) + data
    {
      hide Fold;
      CountMod(|Message()|, |data|);
      totalLen := (totalLen + |data|) % TWO64;
      if blockLen == 0 {
        assert Message() == done;
        Whole(data);
        return;
      }
      var need := BLOCK - blockLen;
      var take := if |data| < need then |data| else need;
      Buffer(data[..take]);
      assert data == data[..take] + data[take..];
      if blockLen < BLOCK { return; }
      Flush();
      Assoc(old(Message()), data[..take], data[take..]);
      Whole(data[take..]);
    }

    /** The rest of an update, from an empty buffer: whole blocks, then what is left over. */
    method Whole(data: seq<Byte>)
      requires Chained() && blockLen == 0
      modifies `done, `blockLen, state, block
      ensures Chained() && blockLen < BLOCK && Message() == old(done) + data
    {
      hide Fold;
      var p := data;
      while |p| >= BLOCK
        invariant Chained() && blockLen == 0 && done + p == old(done) + data
      {
        ghost var q := p;
        Absorb(p[..BLOCK]);
        p := p[BLOCK..];
        assert q == q[..BLOCK] + p;
      }
      assert Message() == done;
      if |p| > 0 { Buffer(p); }
    }

    /** `sha256_final`: the digest of the message, also when the length field does not
        fit behind the last bytes. The context is used up. */
    method Final() returns (out: seq<Byte>)
      requires Valid()
      modifies this, state, block
      ensures out == Digest(old(Message()))
    {
      hide Fold, Gap, LengthField, BitLength, Pad, Zeros;
      ghost var m, z := Message(), 0;
      var bitLen := (totalLen * 8) % TWO64;
      BitMod(|m|);
      GapIs(|done|, blockLen);
      PadIsWhole(m);
      Buffer([0x80]);
      if blockLen > 56 {
        z := BLOCK - blockLen;
        Buffer(Zeros(BLOCK - blockLen));
        Flush();
      } else {
        assert m + [0x80] == m + [0x80] + Zeros(0);
      }
      ghost var y := 56 - blockLen;
      PadIs(m, z, y, LengthField(bitLen));
      Buffer(Zeros(56 - blockLen));
      Buffer(LengthField(bitLen));
      Flush();
      out := Emit();
    }

    method Emit() returns (out: seq<Byte>)
      requires state.Length == 8
      ensures out == Output(state[..])
    {
      hide WordByte;
      var bytes := new Byte[32];
      for i := 0 to 8
        invariant forall k, j :: 0 <= k < i && 0 <= j < 4 ==> bytes[4 * k + j] == WordByte(state[k], j)
      {
        bytes[4 * i] := WordByte(state[i], 0);
        bytes[4 * i + 1] := WordByte(state[i], 1);
        bytes[4 * i + 2] := WordByte(state[i], 2);
        bytes[4 * i + 3] := WordByte(state[i], 3);
      }
      out := bytes[..];
      forall k | 0 <= k < 32 ensures out[k] == Output(state[..])[k] {
        assert out[k] == bytes[4 * (k / 4) + k % 4] == WordByte(state[k / 4], k % 4);
      }
    }
  }

  function Concat(chunks: seq<seq<Byte>>): seq<Byte> {
    if chunks == [] then [] else Concat(chunks[..|chunks| - 1]) + chunks[|chunks| - 1]
  }

  /** Any division of a message into updates gives the digest of the message. */
  method HashChunks(chunks: seq<seq<Byte>>) returns (out: seq<Byte>)
    ensures out == Digest(Concat(chunks))
  {
    var ctx := new Context();
    for i := 0 to |chunks|
      invariant ctx.Valid() && fresh(ctx) && fresh(ctx.state) && fresh(ctx.block)
      invariant ctx.Message() == Concat(chunks[..i])
    {
      ctx.Update(chunks[i]);
      assert chunks[..i + 1][..i] == chunks[..i];
    }
    assert chunks[..|chunks|] == chunks;
    out := ctx.Final();
  }
}
