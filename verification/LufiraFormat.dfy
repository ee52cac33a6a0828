/** The on-disk format of LufiraFS: block geometry, little-endian words, the
    76-byte inode record, the block bitmap and the 64-byte directory entry.
    Everything is stated over plain byte sequences, so that the driver's RAM
    image and its data blocks decode with the same functions. */
module LufiraFormat {
  import Bytes

  const BLOCK_SIZE: nat := 8192
  const INODE_SIZE: nat := 76
  const INODE_COUNT: nat := 512
  const INODE_TABLE_BLOCKS: nat := 5
  const DIRENT_SIZE: nat := 64
  const DIRENTS: nat := 128
  const MAX_NAME: nat := 59
  const DIRECT: nat := 12
  const PTRS: nat := 2048
  const MAX_BLOCKS: nat := 2060
  const MAX_FILE_SIZE: nat := 16875520
  const ROOT: nat := 1

  const MODE_FREE: U32 := 0
  const MODE_FILE: U32 := 1
  const MODE_DIR: U32 := 2

  type Byte = Bytes.Byte
  type U32 = Bytes.U32
  type Block = b: seq<Byte> | |b| == BLOCK_SIZE witness seq(BLOCK_SIZE, _ => 0)

  function ZeroBlock(): Block { seq(BLOCK_SIZE, _ => 0) }

  // ---------------------------------------------------------------- words

  function GetU32(s: seq<Byte>, off: nat): U32
    requires off + 4 <= |s|
  {
    s[off] as int + 256 * (s[off + 1] as int) + 65536 * (s[off + 2] as int) + 16777216 * (s[off + 3] as int)
  }

  function U32Byte(v: U32, k: nat): Byte
    requires k < 4
  {
    if k == 0 then v % 256
    else if k == 1 then v / 256 % 256
    else if k == 2 then v / 65536 % 256
    else v / 16777216
  }

  function PutU32(s: seq<Byte>, off: nat, v: U32): (r: seq<Byte>)
    requires off + 4 <= |s|
    ensures |r| == |s|
    ensures forall k :: 0 <= k < |s| && !(off <= k < off + 4) ==> r[k] == s[k]
    ensures GetU32(r, off) == v
  {
    WordBytes(v);
    s[off := U32Byte(v, 0)][off + 1 := U32Byte(v, 1)][off + 2 := U32Byte(v, 2)][off + 3 := U32Byte(v, 3)]
  }

  lemma WordBytes(v: U32)
    ensures U32Byte(v, 0) + 256 * U32Byte(v, 1) + 65536 * U32Byte(v, 2) + 16777216 * U32Byte(v, 3) == v
  {
    Bytes.FourBytes(v);
  }

  // --------------------------------------------------------------- bitmap

  function Pow2(k: nat): (p: nat)
    requires k < 8
  {
    if k == 0 then 1 else if k == 1 then 2 else if k == 2 then 4 else if k == 3 then 8
    else if k == 4 then 16 else if k == 5 then 32 else if k == 6 then 64 else 128
  }

  predicate BitOf(v: Byte, k: nat)
    requires k < 8
  {
    v / Pow2(k) % 2 == 1
  }

  /** `v |= 1 << k` when `used`, `v &= ~(1 << k)` otherwise. */
  function WithBit(v: Byte, k: nat, used: bool): (r: Byte)
    requires k < 8
    ensures BitOf(r, k) == used
    ensures forall j :: 0 <= j < 8 && j != k ==> BitOf(r, j) == BitOf(v, j)
  {
    var d := BitsOf(v)[k := if used then 1 else 0];
    WeighBits(d);
    Weigh(d)
  }

  function BitsOf(v: Byte): (d: seq<int>)
    ensures Bits8(d) && Weigh(d) == v
    ensures forall j :: 0 <= j < 8 ==> (d[j] == 1) == BitOf(v, j)
  {
    var d := seq(8, j requires 0 <= j < 8 => BitValue(v, j));
    WeighOfBits(v, d);
    d
  }

  function BitValue(v: Byte, j: nat): int
    requires j < 8
  {
    if BitOf(v, j) then 1 else 0
  }

  lemma WeighOfBits(v: Byte, d: seq<int>)
    requires Bits8(d) && forall j :: 0 <= j < 8 ==> d[j] == BitValue(v, j)
    ensures Weigh(d) == v
  {
    ByteBits(v);
    assert d[0] == v % 2 && d[1] == v / 2 % 2 && d[2] == v / 4 % 2 && d[3] == v / 8 % 2;
    assert d[4] == v / 16 % 2 && d[5] == v / 32 % 2 && d[6] == v / 64 % 2 && d[7] == v / 128 % 2;
  }

  predicate Bits8(d: seq<int>) { |d| == 8 && forall j :: 0 <= j < 8 ==> d[j] == 0 || d[j] == 1 }

  function Weigh(d: seq<int>): int
    requires Bits8(d)
  {
    d[0] + 2 * d[1] + 4 * d[2] + 8 * d[3] + 16 * d[4] + 32 * d[5] + 64 * d[6] + 128 * d[7]
  }

  lemma WeighBits(d: seq<int>)
    requires Bits8(d)
    ensures 0 <= Weigh(d) < 256
    ensures forall j :: 0 <= j < 8 ==> BitOf(Weigh(d), j) == (d[j] == 1)
  {
    var v := Weigh(d);
    assert v / 2 == d[1] + 2 * d[2] + 4 * d[3] + 8 * d[4] + 16 * d[5] + 32 * d[6] + 64 * d[7];
    assert v / 4 == d[2] + 2 * d[3] + 4 * d[4] + 8 * d[5] + 16 * d[6] + 32 * d[7];
    assert v / 8 == d[3] + 2 * d[4] + 4 * d[5] + 8 * d[6] + 16 * d[7];
    assert v / 16 == d[4] + 2 * d[5] + 4 * d[6] + 8 * d[7];
    assert v / 32 == d[5] + 2 * d[6] + 4 * d[7];
    assert v / 64 == d[6] + 2 * d[7];
    assert v / 128 == d[7];
    forall j | 0 <= j < 8 ensures BitOf(v, j) == (d[j] == 1) {
      if j == 0 {} else if j == 1 {} else if j == 2 {} else if j == 3 {} else if j == 4 {} else if j == 5 {}
        else if j == 6 {} else {}
    }
  }

  /** A byte is the sum of its weighted bits. */
  lemma ByteBits(v: Byte)
    ensures v == v % 2 + 2 * (v / 2 % 2) + 4 * (v / 4 % 2) + 8 * (v / 8 % 2)
                 + 16 * (v / 16 % 2) + 32 * (v / 32 % 2) + 64 * (v / 64 % 2) + 128 * (v / 128 % 2)
  {
    assert v / 4 == v / 2 / 2 && v / 8 == v / 4 / 2 && v / 16 == v / 8 / 2;
    assert v / 32 == v / 16 / 2 && v / 64 == v / 32 / 2 && v / 128 == v / 64 / 2;
  }

  /** Bit `b` of a bitmap that starts at byte `base` of `s`. */
  predicate BitAt(s: seq<Byte>, base: nat, b: nat)
    requires base + b / 8 < |s|
  {
    BitOf(s[base + b / 8], b % 8)
  }

  // --------------------------------------------------------------- inodes

  datatype InodeRec = InodeRec(mode: U32, size: U32, links: U32, direct: seq<U32>,
                               indirect: U32, uid: U32, gid: U32, perm: U32)
  type Inode = i: InodeRec | |i.direct| == DIRECT
    witness InodeRec(0, 0, 0, seq(DIRECT, _ => 0), 0, 0, 0, 0)

  function FreeInode(): Inode { InodeRec(0, 0, 0, seq(DIRECT, _ => 0), 0, 0, 0, 0) }

  /** The record as its nineteen consecutive words. */
  function InodeWord(i: Inode, w: nat): U32
    requires w < 19
  {
    if w == 0 then i.mode else if w == 1 then i.size else if w == 2 then i.links
    else if w < 15 then i.direct[w - 3]
    else if w == 15 then i.indirect else if w == 16 then i.uid else if w == 17 then i.gid else i.perm
  }

  function InodeByte(i: Inode, k: nat): Byte
    requires k < INODE_SIZE
  {
    U32Byte(InodeWord(i, k / 4), k % 4)
  }

  function InodeAt(s: seq<Byte>, base: nat): Inode
    requires base + INODE_SIZE <= |s|
  {
    InodeRec(GetU32(s, base), GetU32(s, base + 4), GetU32(s, base + 8),
             seq(DIRECT, k requires 0 <= k < DIRECT => GetU32(s, base + 12 + 4 * k)),
             GetU32(s, base + 60), GetU32(s, base + 64), GetU32(s, base + 68), GetU32(s, base + 72))
  }

  predicate HoldsInode(s: seq<Byte>, base: nat, i: Inode)
    requires base + INODE_SIZE <= |s|
  {
    forall k :: 0 <= k < INODE_SIZE ==> s[base + k] == InodeByte(i, k)
  }

  lemma WordDecodes(s: seq<Byte>, base: nat, i: Inode, w: nat)
    requires base + INODE_SIZE <= |s| && HoldsInode(s, base, i) && w < 19
    ensures GetU32(s, base + 4 * w) == InodeWord(i, w)
  {
    assert s[base + 4 * w] == InodeByte(i, 4 * w);
    assert s[base + (4 * w + 1)] == InodeByte(i, 4 * w + 1);
    assert s[base + (4 * w + 2)] == InodeByte(i, 4 * w + 2);
    assert s[base + (4 * w + 3)] == InodeByte(i, 4 * w + 3);
    WordBytes(InodeWord(i, w));
  }

  /** Decoding an encoded inode record gives the inode back. */
  lemma InodeRoundTrip(s: seq<Byte>, base: nat, i: Inode)
    requires base + INODE_SIZE <= |s| && HoldsInode(s, base, i)
    ensures InodeAt(s, base) == i
  {
    forall w | 0 <= w < 19 ensures GetU32(s, base + 4 * w) == InodeWord(i, w) { WordDecodes(s, base, i, w); }
    assert forall w :: 0 <= w < 19 ==> GetU32(s, base + 4 * w) == InodeWord(i, w);
    WordDecodes(s, base, i, 0); WordDecodes(s, base, i, 1); WordDecodes(s, base, i, 2);
    WordDecodes(s, base, i, 15); WordDecodes(s, base, i, 16); WordDecodes(s, base, i, 17); WordDecodes(s, base, i, 18);
    forall k | 0 <= k < DIRECT ensures InodeAt(s, base).direct[k] == i.direct[k] { WordDecodes(s, base, i, k + 3); }
    assert InodeAt(s, base).direct == i.direct;
  }

  lemma InodeFrame(s: seq<Byte>, t: seq<Byte>, base: nat)
    requires base + INODE_SIZE <= |s| && |t| == |s|
    requires forall k :: base <= k < base + INODE_SIZE ==> t[k] == s[k]
    ensures InodeAt(t, base) == InodeAt(s, base)
  {
    forall k | 0 <= k < DIRECT ensures InodeAt(t, base).direct[k] == InodeAt(s, base).direct[k] {}
    assert InodeAt(t, base).direct == InodeAt(s, base).direct;
  }

  // ------------------------------------------------------------ superblock

  /** The fields of the superblock that change after mount, and the rest. */
  datatype Superblock = Superblock(geom: Geometry, freeBlocks: U32, freeInodes: U32)

  datatype Geometry = Geometry(total: nat) {
    function BitmapBlocks(): nat {
      if total == 0 then 1 else (total + 65535) / 65536
    }
    function InodeTable(): nat { 1 + BitmapBlocks() }
    function DataStart(): nat { InodeTable() + INODE_TABLE_BLOCKS }
    /** A volume with room for data whose sector numbers fit 32 bits. */
    predicate Good() { DataStart() < total <= 0x1000_0000 }

    function InodeOff(ino: nat): nat
      requires 1 <= ino <= INODE_COUNT
    {
      InodeTable() * BLOCK_SIZE + (ino - 1) * INODE_SIZE
    }
  }

  function SbByte(sb: Superblock, k: nat): Byte
    requires sb.geom.Good() && k < BLOCK_SIZE
  {
    if k >= 52 then 0 else
    var g := sb.geom;
    var w := k / 4;
    var word: U32 :=
      if w == 0 then 0x31534C4F else if w == 1 then 3 else if w == 2 then BLOCK_SIZE
      else if w == 3 then g.total else if w == 4 then 1 else if w == 5 then g.BitmapBlocks()
      else if w == 6 then g.InodeTable() else if w == 7 then INODE_TABLE_BLOCKS
      else if w == 8 then INODE_COUNT else if w == 9 then g.DataStart() else if w == 10 then ROOT
      else if w == 11 then sb.freeBlocks else sb.freeInodes;
    U32Byte(word, k % 4)
  }

  // ------------------------------------------------- directory entry blocks

  type Name = seq<Byte>

  /** The C string that starts at `off`, at most `n` bytes long. */
  function CStr(s: seq<Byte>, off: nat, n: nat): (r: Name)
    requires off + n <= |s|
    ensures |r| <= n
    decreases n
  {
    if n == 0 || s[off] == 0 then [] else [s[off]] + CStr(s, off + 1, n - 1)
  }

  function EntIno(b: Block, i: nat): U32
    requires i < DIRENTS
  {
    GetU32(b, DIRENT_SIZE * i)
  }

  function EntName(b: Block, i: nat): Name
    requires i < DIRENTS
  {
    CStr(b, DIRENT_SIZE * i + 4, MAX_NAME + 1)
  }

  /** A name that a directory entry can hold and a path can spell. */
  predicate NameOk(n: Name) {
    0 < |n| <= MAX_NAME && forall k :: 0 <= k < |n| ==> n[k] != 0 && n[k] != '/' as int
  }

  lemma CStrReads(s: seq<Byte>, off: nat, n: nat, name: Name)
    requires |name| < n && off + n <= |s|
    requires forall k :: 0 <= k < |name| ==> s[off + k] == name[k] && name[k] != 0
    requires s[off + |name|] == 0
    ensures CStr(s, off, n) == name
    decreases n
  {
    if name != [] {
      assert s[off + 0] == name[0];
      forall k | 0 <= k < |name| - 1 ensures s[off + 1 + k] == name[1..][k] { assert s[off + (k + 1)] == name[k + 1]; }
      CStrReads(s, off + 1, n - 1, name[1..]);
      assert name == [name[0]] + name[1..];
    }
  }

  lemma CStrFrame(s: seq<Byte>, t: seq<Byte>, off: nat, n: nat)
    requires off + n <= |s| == |t|
    requires forall k :: off <= k < off + n ==> s[k] == t[k]
    ensures CStr(s, off, n) == CStr(t, off, n)
    decreases n
  {
    if n > 0 { CStrFrame(s, t, off + 1, n - 1); }
  }

  /** `copy_name` into a fixed place of a buffer. */
  function PutName(s: seq<Byte>, off: nat, name: Name): (r: seq<Byte>)
    requires off + |name| < |s|
    ensures |r| == |s|
  {
    s[..off] + name + [0] + s[off + |name| + 1..]
  }

  /** A directory block after `ents[i]` was given an inode and a name. */
  function PutEnt(b: Block, i: nat, ino: U32, name: Name): Block
    requires i < DIRENTS && |name| <= MAX_NAME
  {
    PutName(PutU32(b, DIRENT_SIZE * i, ino), DIRENT_SIZE * i + 4, name)
  }

  /** A directory block after `ents[i]` was cleared. */
  function ClearEnt(b: Block, i: nat): Block
    requires i < DIRENTS
  {
    PutU32(b, DIRENT_SIZE * i, 0)[DIRENT_SIZE * i + 4 := 0]
  }

  lemma EntFrame(b: Block, c: Block, i: nat)
    requires i < DIRENTS
    requires forall k :: DIRENT_SIZE * i <= k < DIRENT_SIZE * i + DIRENT_SIZE ==> b[k] == c[k]
    ensures EntIno(b, i) == EntIno(c, i) && EntName(b, i) == EntName(c, i)
  {
    CStrFrame(b, c, DIRENT_SIZE * i + 4, MAX_NAME + 1);
  }

  lemma PutEntBytes(b: Block, i: nat, ino: U32, name: Name)
    requires i < DIRENTS && |name| <= MAX_NAME
    ensures var c, o := PutEnt(b, i, ino, name), DIRENT_SIZE * i;
            && GetU32(c, o) == ino
            && (forall k :: 0 <= k < |name| ==> c[o + 4 + k] == name[k])
            && c[o + 4 + |name|] == 0
            && forall k :: 0 <= k < BLOCK_SIZE && !(o <= k < o + DIRENT_SIZE) ==> c[k] == b[k]
  {
    var o := DIRENT_SIZE * i;
    var p := PutU32(b, o, ino);
    var c := PutEnt(b, i, ino, name);
    assert forall k :: 0 <= k < o + 4 ==> c[k] == p[k];
    assert c[o] == p[o] && c[o + 1] == p[o + 1] && c[o + 2] == p[o + 2] && c[o + 3] == p[o + 3];
  }

  lemma PutEntDecodes(b: Block, i: nat, ino: U32, name: Name)
    requires i < DIRENTS && NameOk(name)
    ensures EntIno(PutEnt(b, i, ino, name), i) == ino
    ensures EntName(PutEnt(b, i, ino, name), i) == name
    ensures forall j :: 0 <= j < DIRENTS && j != i ==>
              EntIno(PutEnt(b, i, ino, name), j) == EntIno(b, j) && EntName(PutEnt(b, i, ino, name), j) == EntName(b, j)
  {
    PutEntBytes(b, i, ino, name);
    CStrReads(PutEnt(b, i, ino, name), DIRENT_SIZE * i + 4, MAX_NAME + 1, name);
    forall j | 0 <= j < DIRENTS && j != i
      ensures EntIno(PutEnt(b, i, ino, name), j) == EntIno(b, j) && EntName(PutEnt(b, i, ino, name), j) == EntName(b, j)
    {
      EntFrame(PutEnt(b, i, ino, name), b, j);
    }
  }

  lemma ClearEntDecodes(b: Block, i: nat)
    requires i < DIRENTS
    ensures EntIno(ClearEnt(b, i), i) == 0
    ensures forall j :: 0 <= j < DIRENTS && j != i ==>
              EntIno(ClearEnt(b, i), j) == EntIno(b, j) && EntName(ClearEnt(b, i), j) == EntName(b, j)
  {
    var c := ClearEnt(b, i);
    forall j | 0 <= j < DIRENTS && j != i ensures EntIno(c, j) == EntIno(b, j) && EntName(c, j) == EntName(b, j) {
      EntFrame(c, b, j);
    }
  }
}
