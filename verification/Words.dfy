/** 32-bit words, their rotation, and the numbers they are. */
module Words {
  import opened Bytes

  type Word = bv32

  /** A word as a number. */
  function Num(w: Word): (n: nat)
    ensures n < 0x1_0000_0000
  {
    w as int
  }

  lemma NumInjective(x: Word, y: Word)
    requires Num(x) == Num(y)
    ensures x == y
  {
    assert Num(x) as Word == x && Num(y) as Word == y;
  }

  function Rotr(v: Word, n: bv6): Word
    requires 0 < n < 32
  {
    (v >> n) | (v << (32 - n))
  }

  function Pow2(n: nat): (p: nat)
    ensures p > 0
  {
    if n == 0 then 1 else 2 * Pow2(n - 1)
  }

  lemma Doubles(n: nat)
    ensures Pow2(n + 1) == 2 * Pow2(n)
  {}

  lemma {:induction false} Pow2Sum(m: nat, n: nat)
    ensures Pow2(m) * Pow2(n) == Pow2(m + n)
  {
    if m > 0 {
      hide Pow2;
      Pow2Sum(m - 1, n);
      Doubles(m - 1);
      Doubles(m - 1 + n);
      Product(Pow2(n), Pow2(m - 1));
    }
  }

  function Join(y: bv31, b: bv1): Word { ((y as Word) << 1) | (b as Word) }

  function Swap(y: bv31, b: bv1): Word { ((b as Word) << 31) | (y as Word) }

  lemma JoinNum(y: bv31, b: bv1) returns (q: int, c: int)
    ensures Num(Join(y, b)) == 2 * q + c && Num(Swap(y, b)) == 0x8000_0000 * c + q && 0 <= c < 2
  {
    q, c := y as int, b as int;
  }

  lemma PartsOf(x: Word)
    ensures Join((x >> 1) as bv31, (x & 1) as bv1) == x
    ensures Swap((x >> 1) as bv31, (x & 1) as bv1) == Rotr(x, 1)
  {}

  lemma RotateOne(x: Word)
    ensures Num(Rotr(x, 1)) == Num(x) / 2 + Num(x) % 2 * 0x8000_0000
  {
    hide Num, Rotr, Join, Swap;
    PartsOf(x);
    var q, b := JoinNum((x >> 1) as bv31, (x & 1) as bv1);
    Halves(Num(x), q, b);
  }

  lemma Halves(x: int, y: int, b: int)
    requires x == 2 * y + b && 0 <= b < 2
    ensures x / 2 == y && x % 2 == b
  {}

  lemma ShiftMore(x: Word, n: bv6)
    requires 1 < n < 32
    ensures var y := (x >> (n - 1)) | (x << (33 - n)); (x >> n) | (x << (32 - n)) == (y >> 1) | (y << 31)
  {}

  lemma RotateMore(x: Word, n: bv6)
    requires 1 < n < 32
    ensures Rotr(x, n) == Rotr(Rotr(x, n - 1), 1)
  {
    ShiftMore(x, n);
  }

  lemma OneLess(n: bv6)
    requires n > 0
    ensures (n - 1) as nat == n as nat - 1
  {}

  /** What rotating on by one bit does to quotient and remainder. */
  lemma RotateStep(x: nat, n: nat)
    requires 0 < n < 31
    ensures var y := x / Pow2(n) + x % Pow2(n) * Pow2(32 - n);
            y / 2 + y % 2 * Pow2(31) == x / Pow2(n + 1) + x % Pow2(n + 1) * Pow2(31 - n)
  {
    hide Pow2;
    Doubles(n);
    Doubles(31 - n);
    Pow2Sum(n, 31 - n);
    Rearranged(x, Pow2(n), Pow2(31 - n), Pow2(n + 1), Pow2(32 - n), Pow2(31));
  }

  lemma Rearranged(x: nat, p: nat, q: nat, p2: nat, q2: nat, pq: nat)
    requires p > 0 && p2 == 2 * p && q2 == 2 * q && pq == p * q
    ensures var y := x / p + x % p * q2;
            y / 2 + y % 2 * pq == x / p2 + x % p2 * q
  {
    var c, r := x / p, x % p;
    var h, b := c / 2, c % 2;
    LowHalf(c, r, q, h, b);
    HighHalf(x, p, c, r, h, b);
    Moved(p, q, r, b);
  }

  lemma LowHalf(c: nat, r: nat, q: nat, h: nat, b: nat)
    requires c == 2 * h + b && b < 2
    ensures (c + r * (2 * q)) / 2 == h + r * q && (c + r * (2 * q)) % 2 == b
  {
    Product(r, q);
    Halves(c + r * (2 * q), h + r * q, b);
  }

  lemma HighHalf(x: nat, p: nat, c: nat, r: nat, h: nat, b: nat)
    requires x == p * c + r && r < p && c == 2 * h + b && b < 2
    ensures x / (2 * p) == h && x % (2 * p) == (if b == 0 then r else p + r)
  {
    Product(p, h);
    Sum(p, 2 * h, b);
    DivIs(x, 2 * p, h, if b == 0 then r else p + r);
  }

  lemma Moved(p: nat, q: nat, r: nat, b: nat)
    requires b < 2
    ensures r * q + b * (p * q) == (if b == 0 then r else p + r) * q
  {
    Sum(q, p, r);
  }

  lemma Product(x: int, y: int)
    ensures x * (2 * y) == 2 * (x * y) == 2 * x * y
  {}

  lemma Sum(x: int, y: int, z: int)
    ensures x * (y + z) == x * y + x * z && (y + z) * x == y * x + z * x
  {}

  lemma DivIs(x: nat, d: nat, h: nat, r: nat)
    requires d > 0 && x == d * h + r && r < d
    ensures x / d == h && x % d == r
  {
    var e := x / d - h;
    Signs(d, e);
    assert d * e == r - x % d by { assert d * e == d * (x / d) - d * h; }
  }

  lemma Signs(d: int, e: int)
    requires d > 0
    ensures e >= 1 ==> d * e >= d
    ensures e <= -1 ==> d * e <= -d
  {}

  /** Rotation by `n` bits: the quotient by two to the `n`, with the remainder moved to the top. */
  lemma {:induction false} RotateIs(x: Word, n: bv6)
    requires 0 < n < 32
    ensures Num(Rotr(x, n)) == Num(x) / Pow2(n as nat) + Num(x) % Pow2(n as nat) * Pow2(32 - n as nat)
    decreases n as nat
  {
    hide Rotr, Num, Pow2;
    HighBit();
    OneLess(n);
    if n == 1 {
      RotateOne(x);
    } else {
      RotateMore(x, n);
      RotateIs(x, n - 1);
      RotateOne(Rotr(x, n - 1));
      RotateStep(Num(x), n as nat - 1);
    }
  }

  lemma HighBit()
    ensures Pow2(31) == 0x8000_0000 && Pow2(1) == 2
  {
    assert Pow2(1) == 2 && Pow2(8) == 256;
    Pow2Sum(8, 8);
    Pow2Sum(16, 8);
    assert Pow2(7) == 128;
    Pow2Sum(24, 7);
  }

  function BigEndian4(p: int, q: int, r: int, s: int): int { 0x100_0000 * p + 0x1_0000 * q + 0x100 * r + s }

  function Join4(p: bv8, q: bv8, r: bv8, s: bv8): Word {
    ((p as Word) << 24) | ((q as Word) << 16) | ((r as Word) << 8) | (s as Word)
  }

  lemma Join4Num(p: bv8, q: bv8, r: bv8, s: bv8)
    ensures Num(Join4(p, q, r, s)) == 0x100_0000 * (p as int) + 0x1_0000 * (q as int) + 0x100 * (r as int) + s as int
  {}

  lemma NarrowByte(x: Byte)
    ensures x as Word == (x as bv8) as Word && (x as bv8) as int == x
  {}

  /** Four bytes shifted into place, the first the highest. */
  function Pack(p: Byte, q: Byte, r: Byte, s: Byte): Word {
    ((p as Word) << 24) | ((q as Word) << 16) | ((r as Word) << 8) | (s as Word)
  }

  /** They are the number that the bytes denote. */
  lemma FromBytes(p: Byte, q: Byte, r: Byte, s: Byte)
    ensures Num(Pack(p, q, r, s)) == BigEndian4(p, q, r, s)
  {
    hide Num;
    NarrowByte(p);
    NarrowByte(q);
    NarrowByte(r);
    NarrowByte(s);
    Join4Num(p as bv8, q as bv8, r as bv8, s as bv8);
  }
}
