/** Formatting: from a disk of zeros to a mounted volume with nothing but the root
    directory. Every run can start there. */
module LufiraFresh {
  import opened LufiraFormat
  import opened LufiraState
  import opened LufiraMeta
  import opened LufiraContent
  import opened LufiraDirs
  import opened LufiraTree
  import opened LufiraNamespace
  import opened LufiraVolume
  import opened LufiraDurable
  import opened LufiraCount

  function RootTree(): Tree { Tree(map[ROOT := Dots(ROOT, ROOT)], {}) }

  lemma RootWellFormed()
    ensures WellFormed(RootTree())
  {
    var t := RootTree();
    assert Walk(t, ROOT, []) == ROOT && AllPlain([]);
    assert Reachable(t, ROOT) && Dotted(t);
    forall d, nm | Plain(nm) ensures To(t, d, nm) == 0 {}
    hide To, Walk, AllPlain, Dotted, Reachable;
    assert Closed(t) && NamedOnce(t);
  }

  // ------------------------------------------------------------ a disk of zeros

  function SuperBlock(sb: Superblock): Block
    requires sb.geom.Good()
  {
    seq(BLOCK_SIZE, k requires 0 <= k < BLOCK_SIZE => SbByte(sb, k))
  }

  /** All zeros but for the superblock. */
  function Zeroed(sb: Superblock): seq<Block>
    requires sb.geom.Good()
  {
    [SuperBlock(sb)] + seq(sb.geom.total - 1, _ => ZeroBlock())
  }

  lemma ZeroRecord(img: seq<Byte>, off: nat)
    requires off + INODE_SIZE <= |img| && forall k :: off <= k < off + INODE_SIZE ==> img[k] == 0
    ensures InodeAt(img, off) == FreeInode()
  {
    assert InodeAt(img, off).direct == FreeInode().direct;
  }

  /** The tables of such a disk are empty. */
  lemma ZeroTables(g: Geometry, img: seq<Byte>, bits: seq<bool>, inodes: seq<Inode>)
    requires g.Good() && |img| == g.DataStart() * BLOCK_SIZE && |bits| == g.total && |inodes| == INODE_COUNT
    requires DecodesTo(g, img, bits, inodes) && forall k :: BLOCK_SIZE <= k < |img| ==> img[k] == 0
    ensures forall b :: 0 <= b < g.total ==> !bits[b]
    ensures forall i :: IsIno(i) ==> inodes[i - 1] == FreeInode()
  {
    forall i | IsIno(i) ensures inodes[i - 1] == FreeInode() { ZeroRecord(img, g.InodeOff(i)); }
  }

  lemma ZeroImage(g: Geometry, img: seq<Byte>, sb: Superblock)
    requires sb.geom == g && g.Good() && |img| == g.DataStart() * BLOCK_SIZE && Clean(g, img, Zeroed(sb))
    ensures forall k :: BLOCK_SIZE <= k < |img| ==> img[k] == 0
  {
    hide SbByte;
    forall k | BLOCK_SIZE <= k < |img| ensures img[k] == 0 {
      var b, q := k / BLOCK_SIZE, k % BLOCK_SIZE;
      assert OnDisk(img, Zeroed(sb)[b], b) && Zeroed(sb)[b] == ZeroBlock();
      assert k == b * BLOCK_SIZE + q;
      assert img[b * BLOCK_SIZE + q] == Zeroed(sb)[b][q];
    }
  }

  lemma {:induction false} AllClear(bits: seq<bool>, from: nat)
    requires from <= |bits| && forall b :: from <= b < |bits| ==> !bits[b]
    ensures ClearFrom(bits, from) == |bits| - from
    decreases |bits| - from
  {
    if from < |bits| { AllClear(bits, from + 1); }
  }

  lemma NoPointers(s: State)
    requires Shape(s) && forall i :: IsIno(i) ==> InodeOf(s, i) == FreeInode()
    ensures Inv(s) && forall i :: IsIno(i) ==> Blank(s, i)
  {
    forall i, k | IsIno(i) && 0 <= k <= IND ensures Ptr(s, i, k) == 0 {}
  }

  // ------------------------------------------------------------ formatting

  /** An empty volume of `total` blocks: empty tables, all data blocks free. */
  method EmptyTables(total: nat) returns (fs: LufiraFs)
    requires Geometry(total).Good()
    ensures fresh(fs) && fresh(fs.image) && fresh(fs.dirty)
    ensures fs.Valid() && fs.heapOk && fs.geom == Geometry(total) && fs.stale == {}
    ensures forall b :: 0 <= b < total ==> !fs.bits[b]
    ensures forall i :: IsIno(i) ==> InodeOf(fs.S(), i) == FreeInode()
  {
    var g := Geometry(total);
    var sb := Superblock(g, total - g.DataStart(), INODE_COUNT);
    hide SbByte, DecodesTo, OnDisk, BitAt, InodeAt;
    assert HoldsSuper(Zeroed(sb)[0], sb);
    fs := new LufiraFs.Mount(Zeroed(sb), sb, true);
    ZeroImage(g, fs.image[..], sb);
    ZeroTables(g, fs.image[..], fs.bits, fs.inodes);
    AllClear(fs.bits, g.DataStart());
    NoPointers(fs.S());
  }

  /** The blocks of the metadata are marked used. */
  method ReserveTables(fs: LufiraFs)
    requires fs.Valid() && forall i :: IsIno(i) ==> InodeOf(fs.S(), i) == FreeInode()
    modifies fs`bits, fs`stale, fs.image, fs.dirty
    ensures fs.Valid() && fs.stale <= old(fs.stale)
    ensures forall b :: 0 <= b < fs.DataStart() ==> fs.bits[b]
    ensures forall b :: fs.DataStart() <= b < fs.geom.total ==> fs.bits[b] == old(fs.bits[b])
  {
    hide LufiraFs.MetaOk;
    for b := 0 to fs.DataStart()
      invariant fs.MetaOk() && fs.Counted() && fs.stale <= old(fs.stale)
      invariant forall x :: 0 <= x < b ==> fs.bits[x]
      invariant forall x :: fs.DataStart() <= x < fs.geom.total ==> fs.bits[x] == old(fs.bits[x])
    {
      ghost var was := fs.bits;
      fs.SetBit(b, true);
      ClearFromSame(was, fs.bits, fs.DataStart());
    }
    NoPointers(fs.S());
  }

  /** Formats a volume of `total` blocks: metadata blocks reserved, the root inode stored, its
      two dot entries added. The volume is sound, and all it holds is the root. */
  method Format(total: nat) returns (fs: LufiraFs)
    requires Geometry(total).Good()
    ensures fresh(fs) && fresh(fs.image) && fresh(fs.dirty)
    ensures fs.Valid() && fs.heapOk && fs.geom == Geometry(total) && fs.stale == {}
    ensures Depicts(fs.S(), RootTree()) && Tidy(fs.S()) && Spare(fs.S(), ROOT) && InodesCounted(fs)
  {
    hide LufiraFs.MetaOk, Depicts, Tidy, OthersSame, Blank, Inv, Represents, BlockAt, Spare;
    fs := EmptyTables(total);
    ReserveTables(fs);
    NoPointers(fs.S());
    ghost var s0 := fs.S();
    var root := NewRecord(true, 0, 0);
    FreshInode(s0, ROOT, root);
    fs.WriteInode(ROOT, root);
    fs.SetCounters(fs.sb.freeBlocks, INODE_COUNT - 1);
    assert fs.S() == View(s0, ROOT, root);
    assert !fs.bits[fs.DataStart()];
    var ok := fs.AddDots(ROOT, ROOT, s0);
    RootIsAll(s0, fs.S());
    RootCounted(s0, fs.S());
  }

  lemma RootCounted(s0: State, s: State)
    requires Shape(s0) && Shape(s) && OthersSame(s0, s, ROOT) && InodeOf(s, ROOT).mode == MODE_DIR
    requires forall i :: IsIno(i) ==> InodeOf(s0, i) == FreeInode()
    ensures FreeCount(s.inodes) == INODE_COUNT - 1
  {
    SameModes(s0, s, ROOT);
    hide OthersSame;
    forall k | 0 <= k < |s0.inodes| ensures IsFree(s0.inodes[k]) && (k != ROOT - 1 ==> IsFree(s.inodes[k])) {
      assert InodeOf(s0, k + 1) == FreeInode();
      assert k + 1 != ROOT ==> InodeOf(s, k + 1) == InodeOf(s0, k + 1);
    }
    FreeCountAll(s0.inodes);
    FreeCountLess(s0.inodes, s.inodes, ROOT - 1);
  }

  lemma RootIsAll(s0: State, s: State)
    requires Shape(s0) && Shape(s) && OthersSame(s0, s, ROOT) && InodeOf(s, ROOT).mode == MODE_DIR
    requires forall i :: IsIno(i) ==> Blank(s0, i) && InodeOf(s0, i) == FreeInode()
    requires Represents(s, ROOT, Dots(ROOT, ROOT))
    ensures Depicts(s, RootTree()) && Tidy(s)
  {
    RootWellFormed();
    hide Represents, WellFormed, Blank, TailZero;
    SameModes(s0, s, ROOT);
    forall i | IsIno(i) && InodeOf(s, i).mode != MODE_DIR
      ensures InodeOf(s, i).size <= MAX_FILE_SIZE && TailZero(s, i)
    {
      BlankHarmless(s0, i);
      HarmlessKept(s0, s, ROOT, i);
    }
  }
}
