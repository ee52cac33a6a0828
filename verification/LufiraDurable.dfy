/** What is on disk: mounting, what a sync saves and what it loses, and mounting again. */
module LufiraDurable {
  import opened LufiraFormat
  import opened LufiraState
  import opened LufiraMeta
  import opened LufiraContent
  import opened LufiraVolume

  const MAGIC: U32 := 0x31534C4F

  // ------------------------------------------------------------ mounting

  ghost predicate Formatted(d: seq<Block>, sb: Superblock) {
    sb.geom.Good() && |d| == sb.geom.total && HoldsSuper(d[0], sb)
  }

  /** The words of a superblock block. */
  lemma SuperWords(b: Block, sb: Superblock)
    requires sb.geom.Good() && HoldsSuper(b, sb)
    ensures GetU32(b, 0) == MAGIC && GetU32(b, 8) == BLOCK_SIZE && GetU32(b, 12) == sb.geom.total
    ensures GetU32(b, 44) == sb.freeBlocks && GetU32(b, 48) == sb.freeInodes
  {
    WordBytes(MAGIC);
    WordBytes(BLOCK_SIZE);
    WordBytes(sb.geom.total);
    WordBytes(sb.freeBlocks);
    WordBytes(sb.freeInodes);
    forall k | 0 <= k < 4
      ensures b[k] == U32Byte(MAGIC, k) && b[8 + k] == U32Byte(BLOCK_SIZE, k) && b[12 + k] == U32Byte(sb.geom.total, k)
      ensures b[44 + k] == U32Byte(sb.freeBlocks, k) && b[48 + k] == U32Byte(sb.freeInodes, k)
    {}
  }

  /** `lufirafs_init`: refuses a wrong magic number or block size, and otherwise mounts the
      volume that the superblock describes. `memory` says whether its buffers could be had. */
  method Init(d: seq<Block>, memory: bool, heap: bool) returns (ok: bool, fs: LufiraFs?)
    requires d != [] && (GetU32(d[0], 0) == MAGIC && GetU32(d[0], 8) == BLOCK_SIZE ==> exists sb :: Formatted(d, sb))
    ensures ok <==> memory && GetU32(d[0], 0) == MAGIC && GetU32(d[0], 8) == BLOCK_SIZE
    ensures ok ==> fs != null && fresh(fs) && fresh(fs.image) && fresh(fs.dirty)
    ensures ok ==>
              fs.MetaOk() && Formatted(d, fs.sb) && fs.disk == d && fs.stale == {} && Clean(fs.geom, fs.image[..], d)
  {
    hide HoldsSuper, GetU32;
    ok, fs := false, null;
    if GetU32(d[0], 0) != MAGIC { return; }
    if GetU32(d[0], 8) != BLOCK_SIZE { return; }
    if !memory { return; }
    ghost var sb :| Formatted(d, sb);
    SuperWords(d[0], sb);
    var super := Superblock(Geometry(GetU32(d[0], 12)), GetU32(d[0], 44), GetU32(d[0], 48));
    assert super == sb;
    fs := new LufiraFs.Mount(d, super, heap);
    ok := true;
  }

  // ------------------------------------------------- a store, then a sync

  /** `lufirafs_write_inode` and a complete `lufirafs_sync` on a saved volume: disk and image
      agree again exactly when the part of the record in a second block did not change. */
  method StoreThenSync(fs: LufiraFs, ino: nat, inode: Inode) returns (ok: bool)
    requires fs.MetaOk() && IsIno(ino) && Clean(fs.geom, fs.image[..], fs.disk)
    requires forall b :: 0 <= b < fs.DataStart() ==> !fs.dirty[b]
    modifies fs`inodes, fs`stale, fs`disk, fs.image, fs.dirty
    ensures fs.MetaOk()
    ensures ok ==> (Clean(fs.geom, fs.image[..], fs.disk) <==> TailUnchanged(fs.geom, old(fs.image[..]), ino, inode))
    ensures ok ==>
              (Clean(fs.geom, fs.image[..], fs.disk) <==> !Loses(fs.geom, old(fs.image[..]), old(fs.disk), ino, inode))
  {
    hide DecodesTo, HoldsSuper, Stored, TailUnchanged;
    ghost var img, disk, g := fs.image[..], fs.disk, fs.geom;
    ghost var first := g.InodeOff(ino) / BLOCK_SIZE;
    RecordBlock(g, ino, 0);
    fs.WriteInode(ino, inode);
    ok := fs.Sync();
    if ok {
      ghost var t := fs.image[..];
      StoreThenSyncIff(g, img, disk, ino, inode);
      SameClean(g, t, fs.disk, Flushed(g, t, ino, disk), first);
    }
  }

  /** Two disks with equal metadata blocks, and one saved block, are saved alike. */
  lemma SameClean(g: Geometry, img: seq<Byte>, d: seq<Block>, e: seq<Block>, first: nat)
    requires g.Good() && |img| == g.DataStart() * BLOCK_SIZE && |d| == |e| == g.total && first < g.DataStart()
    requires forall b :: 0 <= b < g.DataStart() && b != first ==> d[b] == e[b]
    requires OnDisk(img, d[first], first) && OnDisk(img, e[first], first)
    ensures Clean(g, img, d) <==> Clean(g, img, e)
  {
    hide OnDisk;
  }

  // ------------------------------------------------------- mounting again

  /** No byte of the record lies in a block that a sync may have missed. */
  ghost predicate Saved(g: Geometry, stale: set<nat>, ino: nat) {
    IsIno(ino) && RecBlock(g, ino, 0) !in stale && RecBlock(g, ino, INODE_SIZE - 1) !in stale
  }

  /** Images saved to one disk agree outside the blocks that were missed. */
  lemma SameByte(g: Geometry, img: seq<Byte>, t: seq<Byte>, disk: seq<Block>, stale: set<nat>, x: nat)
    requires g.Good() && |img| == |t| == g.DataStart() * BLOCK_SIZE && |disk| == g.total && x < |img|
    requires forall b :: 0 <= b < g.DataStart() && b !in stale ==> OnDisk(img, disk[b], b)
    requires Clean(g, t, disk) && x / BLOCK_SIZE !in stale
    ensures t[x] == img[x]
  {
    var b, q := x / BLOCK_SIZE, x % BLOCK_SIZE;
    assert OnDisk(img, disk[b], b) && OnDisk(t, disk[b], b);
    assert x == b * BLOCK_SIZE + q;
    assert img[b * BLOCK_SIZE + q] == disk[b][q] == t[b * BLOCK_SIZE + q];
  }

  lemma SameBits(g: Geometry, img: seq<Byte>, t: seq<Byte>, disk: seq<Block>, stale: set<nat>,
                 bs: seq<bool>, ns: seq<Inode>, bt: seq<bool>, nt: seq<Inode>)
    requires g.Good() && |img| == |t| == g.DataStart() * BLOCK_SIZE && |disk| == g.total
    requires |bs| == |bt| == g.total && |ns| == |nt| == INODE_COUNT && DecodesTo(g, img, bs, ns)
    requires DecodesTo(g, t, bt, nt)
    requires forall b :: 0 <= b < g.DataStart() && b !in stale ==> OnDisk(img, disk[b], b)
    requires Clean(g, t, disk) && Losable(g, stale)
    ensures bs == bt
    ensures forall i :: Saved(g, stale, i) ==> nt[i - 1] == ns[i - 1]
  {
    hide OnDisk, Clean, BitOf;
    forall b | 0 <= b < g.total ensures bs[b] == bt[b] {
      var x := BLOCK_SIZE + b / 8;
      assert x / BLOCK_SIZE < g.InodeTable();
      SameByte(g, img, t, disk, stale, x);
    }
    forall i | Saved(g, stale, i) ensures nt[i - 1] == ns[i - 1] {
      var off := g.InodeOff(i);
      forall k | off <= k < off + INODE_SIZE ensures t[k] == img[k] {
        RecordBlock(g, i, k - off);
        RecordBlock(g, i, INODE_SIZE - 1);
        assert k / BLOCK_SIZE == RecBlock(g, i, 0) || k / BLOCK_SIZE == RecBlock(g, i, INODE_SIZE - 1);
        SameByte(g, img, t, disk, stale, k);
      }
      InodeFrame(img, t, off);
    }
  }

  lemma SameContent(s: State, t: State, ino: nat)
    requires Shape(s) && Shape(t) && IsIno(ino) && t.disk == s.disk && InodeOf(t, ino) == InodeOf(s, ino)
    ensures Content(t, ino) == Content(s, ino)
  {
    forall k | 0 <= k ensures BlockAt(t, ino, k) == BlockAt(s, ino, k) {}
    hide BlockAt;
  }

  /** A complete sync and a new mount: the block bitmap, the counters and every record
      outside the missed blocks come back, with the contents of their files. With no block
      missed the whole volume does. */
  method Remount(fs: LufiraFs) returns (ok: bool, again: LufiraFs)
    requires fs.Valid()
    modifies fs`disk, fs.dirty
    ensures fs.Valid() && fs.bits == old(fs.bits) && fs.inodes == old(fs.inodes) && fs.stale == old(fs.stale)
    ensures ok ==>
              again.MetaOk() && again.geom == fs.geom && again.sb == old(fs.sb) && again.bits == fs.bits
                && again.disk == fs.disk
    ensures ok ==> forall i :: Saved(fs.geom, fs.stale, i) ==>
              InodeOf(again.S(), i) == InodeOf(fs.S(), i) && Content(again.S(), i) == Content(old(fs.S()), i)
    ensures ok && fs.stale == {} ==> again.Valid() && again.S() == fs.S()
  {
    hide DecodesTo, OnDisk, SbByte, Losable, Content, Inv;
    ghost var s0 := fs.S();
    ok := fs.Sync();
    MetaWritten(s0, fs.S());
    again := fs;
    if !ok { return; }
    SuperSaved(fs.geom, fs.image[..], fs.disk, fs.stale, fs.sb);
    again := new LufiraFs.Mount(fs.disk, fs.sb, fs.heapOk);
    SameBits(fs.geom, fs.image[..], again.image[..], fs.disk, fs.stale, fs.bits, fs.inodes, again.bits, again.inodes);
    forall i | Saved(fs.geom, fs.stale, i)
      ensures InodeOf(again.S(), i) == InodeOf(fs.S(), i) && Content(again.S(), i) == Content(s0, i)
    {
      SameContent(fs.S(), again.S(), i);
    }
    if fs.stale == {} {
      forall k | 0 <= k < INODE_COUNT ensures again.inodes[k] == fs.inodes[k] {
        assert Saved(fs.geom, fs.stale, k + 1);
      }
      assert again.inodes == fs.inodes;
    }
  }

  lemma SuperSaved(g: Geometry, img: seq<Byte>, disk: seq<Block>, stale: set<nat>, sb: Superblock)
    requires g.Good() && |img| == g.DataStart() * BLOCK_SIZE && |disk| == g.total && sb.geom == g && HoldsSuper(img, sb)
    requires forall b :: 0 <= b < g.DataStart() && b !in stale ==> OnDisk(img, disk[b], b)
    requires Losable(g, stale)
    ensures HoldsSuper(disk[0], sb)
  {
    hide SbByte;
    assert OnDisk(img, disk[0], 0);
    forall k | 0 <= k < BLOCK_SIZE ensures disk[0][k] == SbByte(sb, k) { assert img[0 * BLOCK_SIZE + k] == disk[0][k]; }
  }
}
