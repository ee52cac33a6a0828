/** The metadata image as bytes: how it decodes, which blocks a change touches,
    and for which inode numbers marking one block dirty is not enough. */
module LufiraMeta {
  import opened LufiraFormat
  import opened LufiraState

  ghost predicate DecodesTo(g: Geometry, img: seq<Byte>, bits: seq<bool>, inodes: seq<Inode>)
    requires g.Good() && |img| == g.DataStart() * BLOCK_SIZE && |bits| == g.total && |inodes| == INODE_COUNT
  {
    && (forall b :: 0 <= b < g.total ==> bits[b] == BitAt(img, BLOCK_SIZE, b))
    && (forall ino :: IsIno(ino) ==> inodes[ino - 1] == InodeAt(img, g.InodeOff(ino)))
  }

  /** The tables an image holds. */
  ghost method Decode(g: Geometry, img: seq<Byte>) returns (bits: seq<bool>, inodes: seq<Inode>)
    requires g.Good() && |img| == g.DataStart() * BLOCK_SIZE
    ensures |bits| == g.total && |inodes| == INODE_COUNT && DecodesTo(g, img, bits, inodes)
  {
    bits := seq(g.total, b requires 0 <= b < g.total => BitAt(img, BLOCK_SIZE, b));
    inodes := seq(INODE_COUNT, i requires 0 <= i < INODE_COUNT => InodeAt(img, g.InodeOff(i + 1)));
    forall ino | IsIno(ino) ensures inodes[ino - 1] == InodeAt(img, g.InodeOff(ino)) {}
  }

  lemma DecodeUnique(g: Geometry, img: seq<Byte>, b1: seq<bool>, i1: seq<Inode>, b2: seq<bool>, i2: seq<Inode>)
    requires g.Good() && |img| == g.DataStart() * BLOCK_SIZE
    requires |b1| == |b2| == g.total && |i1| == |i2| == INODE_COUNT
    requires DecodesTo(g, img, b1, i1) && DecodesTo(g, img, b2, i2)
    ensures b1 == b2 && i1 == i2
  {
    forall k | 0 <= k < INODE_COUNT ensures i1[k] == i2[k] { assert IsIno(k + 1) && i1[k + 1 - 1] == i2[k + 1 - 1]; }
  }

  /** Block 0 of the image is the superblock. */
  ghost predicate HoldsSuper(img: seq<Byte>, sb: Superblock)
    requires sb.geom.Good() && BLOCK_SIZE <= |img|
  {
    forall k :: 0 <= k < BLOCK_SIZE ==> img[k] == SbByte(sb, k)
  }

  lemma SuperFrame(img: seq<Byte>, t: seq<Byte>, sb: Superblock)
    requires sb.geom.Good() && BLOCK_SIZE <= |img| == |t| && HoldsSuper(img, sb)
    requires forall k :: 0 <= k < BLOCK_SIZE ==> t[k] == img[k]
    ensures HoldsSuper(t, sb)
  {}

  /** Block `b` of the image is what the disk holds. */
  ghost predicate OnDisk(img: seq<Byte>, blk: Block, b: nat)
    requires (b + 1) * BLOCK_SIZE <= |img|
  {
    forall k :: 0 <= k < BLOCK_SIZE ==> img[b * BLOCK_SIZE + k] == blk[k]
  }

  lemma BitImage(g: Geometry, img: seq<Byte>, bits: seq<bool>, inodes: seq<Inode>, b: nat, used: bool)
    requires g.Good() && |img| == g.DataStart() * BLOCK_SIZE && |bits| == g.total && |inodes| == INODE_COUNT
    requires DecodesTo(g, img, bits, inodes) && b < g.total
    ensures var x := BLOCK_SIZE + b / 8;
            DecodesTo(g, img[x := WithBit(img[x], b % 8, used)], bits[b := used], inodes)
  {
    var x := BLOCK_SIZE + b / 8;
    var t := img[x := WithBit(img[x], b % 8, used)];
    forall c | 0 <= c < g.total ensures bits[b := used][c] == BitAt(t, BLOCK_SIZE, c) {
      if c / 8 == b / 8 && c != b { assert c % 8 != b % 8; }
      assert bits[c] == BitAt(img, BLOCK_SIZE, c);
    }
    forall ino | IsIno(ino) ensures inodes[ino - 1] == InodeAt(t, g.InodeOff(ino)) {
      InodeFrame(img, t, g.InodeOff(ino));
    }
  }

  lemma InodeImage(g: Geometry, img: seq<Byte>, t: seq<Byte>, bits: seq<bool>, inodes: seq<Inode>, ino: nat, i: Inode)
    requires g.Good() && |img| == |t| == g.DataStart() * BLOCK_SIZE && |bits| == g.total && |inodes| == INODE_COUNT
    requires DecodesTo(g, img, bits, inodes) && IsIno(ino)
    requires HoldsInode(t, g.InodeOff(ino), i)
    requires forall k :: 0 <= k < |img| && !(g.InodeOff(ino) <= k < g.InodeOff(ino) + INODE_SIZE) ==> t[k] == img[k]
    ensures DecodesTo(g, t, bits, inodes[ino - 1 := i])
  {
    forall b | 0 <= b < g.total ensures bits[b] == BitAt(t, BLOCK_SIZE, b) {}
    forall j | IsIno(j) ensures inodes[ino - 1 := i][j - 1] == InodeAt(t, g.InodeOff(j)) {
      if j == ino { InodeRoundTrip(t, g.InodeOff(ino), i); } else { InodeFrame(img, t, g.InodeOff(j)); }
    }
  }

  lemma SuperImage(g: Geometry, img: seq<Byte>, t: seq<Byte>, bits: seq<bool>, inodes: seq<Inode>)
    requires g.Good() && |img| == |t| == g.DataStart() * BLOCK_SIZE && |bits| == g.total && |inodes| == INODE_COUNT
    requires DecodesTo(g, img, bits, inodes)
    requires forall k :: BLOCK_SIZE <= k < |img| ==> t[k] == img[k]
    ensures DecodesTo(g, t, bits, inodes)
  {
    forall b | 0 <= b < g.total ensures bits[b] == BitAt(t, BLOCK_SIZE, b) {}
    forall j | IsIno(j) ensures inodes[j - 1] == InodeAt(t, g.InodeOff(j)) { InodeFrame(img, t, g.InodeOff(j)); }
  }

  // --------------------------------------------- records that span two blocks

  /** The record of inode `ino` begins in one block and ends in the next. */
  predicate Straddles(ino: nat)
    requires IsIno(ino)
  {
    (ino - 1) * INODE_SIZE / BLOCK_SIZE != (ino * INODE_SIZE - 1) / BLOCK_SIZE
  }

  lemma StraddlersAre(ino: nat)
    requires IsIno(ino)
    ensures Straddles(ino) <==> ino in {108, 216, 324, 432}
  {}

  /** The metadata block that holds byte `k` of the record. */
  function RecBlock(g: Geometry, ino: nat, k: nat): nat
    requires IsIno(ino)
  {
    (g.InodeOff(ino) + k) / BLOCK_SIZE
  }

  lemma RecordBlock(g: Geometry, ino: nat, k: nat)
    requires g.Good() && IsIno(ino) && k < INODE_SIZE
    ensures var first := g.InodeOff(ino) / BLOCK_SIZE;
            && first < g.DataStart()
            && (|| (g.InodeOff(ino) + k) / BLOCK_SIZE == first
                || (Straddles(ino) && (g.InodeOff(ino) + k) / BLOCK_SIZE == first + 1))
  {}

  /** A block that holds no byte of the record stays as it was. */
  lemma InodeCover(g: Geometry, img: seq<Byte>, t: seq<Byte>, ino: nat, blk: Block, b: nat)
    requires g.Good() && IsIno(ino) && |img| == |t| == g.DataStart() * BLOCK_SIZE && b < g.DataStart()
    requires forall k :: 0 <= k < |img| && !(g.InodeOff(ino) <= k < g.InodeOff(ino) + INODE_SIZE) ==> t[k] == img[k]
    requires OnDisk(img, blk, b)
    requires b != g.InodeOff(ino) / BLOCK_SIZE && (Straddles(ino) ==> b != g.InodeOff(ino) / BLOCK_SIZE + 1)
    ensures OnDisk(t, blk, b)
  {
    forall k | 0 <= k < BLOCK_SIZE ensures t[b * BLOCK_SIZE + k] == blk[k] {
      var x := b * BLOCK_SIZE + k;
      assert x / BLOCK_SIZE == b;
      if g.InodeOff(ino) <= x < g.InodeOff(ino) + INODE_SIZE {
        RecordBlock(g, ino, x - g.InodeOff(ino));
        assert false;
      }
    }
  }

  ghost predicate Whole(ino: nat) { IsIno(ino) ==> !Straddles(ino) }

  /** The block behind the one that a store of the record marks, if it reaches there. */
  ghost function Spill(g: Geometry, ino: nat): (s: set<nat>)
    ensures Whole(ino) ==> s == {}
  {
    if Whole(ino) then {} else {g.InodeOff(ino) / BLOCK_SIZE + 1}
  }

  /** Metadata blocks that can be out of step: all in the inode table, none its first. */
  ghost predicate Losable(g: Geometry, stale: set<nat>) {
    forall b :: b in stale ==> g.InodeTable() < b < g.DataStart()
  }

  lemma LosableBoth(g: Geometry, a: set<nat>, b: set<nat>)
    requires Losable(g, a) && Losable(g, b)
    ensures Losable(g, a + b)
  {}

  /** A block that the store neither marks nor spills into stays as it was. */
  lemma SpillCover(g: Geometry, img: seq<Byte>, t: seq<Byte>, ino: nat, blk: Block, b: nat)
    requires g.Good() && IsIno(ino) && |img| == |t| == g.DataStart() * BLOCK_SIZE && b < g.DataStart()
    requires forall k :: 0 <= k < |img| && !(g.InodeOff(ino) <= k < g.InodeOff(ino) + INODE_SIZE) ==> t[k] == img[k]
    requires OnDisk(img, blk, b) && b != g.InodeOff(ino) / BLOCK_SIZE && b !in Spill(g, ino)
    ensures OnDisk(t, blk, b)
  {
    hide OnDisk;
    InodeCover(g, img, t, ino, blk, b);
  }

  lemma SpillLosable(g: Geometry, ino: nat)
    requires g.Good()
    ensures Losable(g, Spill(g, ino))
  {
    if !Whole(ino) { RecordBlock(g, ino, INODE_SIZE - 1); LastByte(g, ino); }
  }

  // ------------------------------------------ one store, then one whole sync

  /** Every block of the image is on disk: what a complete sync is for. */
  ghost predicate Clean(g: Geometry, img: seq<Byte>, disk: seq<Block>)
    requires g.Good() && |img| == g.DataStart() * BLOCK_SIZE && |disk| == g.total
  {
    forall b :: 0 <= b < g.DataStart() ==> OnDisk(img, disk[b], b)
  }

  /** The image after `lufirafs_write_inode`. */
  function Stored(g: Geometry, img: seq<Byte>, ino: nat, inode: Inode): (t: seq<Byte>)
    requires g.Good() && |img| == g.DataStart() * BLOCK_SIZE && IsIno(ino)
    ensures |t| == |img|
  {
    seq(|img|, k requires 0 <= k < |img| => StoredByte(g, img, ino, inode, k))
  }

  function StoredByte(g: Geometry, img: seq<Byte>, ino: nat, inode: Inode, k: nat): Byte
    requires g.Good() && IsIno(ino) && k < |img|
  {
    var off := g.InodeOff(ino);
    if off <= k < off + INODE_SIZE then InodeByte(inode, k - off) else img[k]
  }

  lemma IsStored(g: Geometry, img: seq<Byte>, t: seq<Byte>, ino: nat, inode: Inode)
    requires g.Good() && |img| == |t| == g.DataStart() * BLOCK_SIZE && IsIno(ino)
    requires HoldsInode(t, g.InodeOff(ino), inode)
    requires forall k :: 0 <= k < |img| && !(g.InodeOff(ino) <= k < g.InodeOff(ino) + INODE_SIZE) ==> t[k] == img[k]
    ensures t == Stored(g, img, ino, inode)
  {
    hide InodeByte;
    var off := g.InodeOff(ino);
    forall k | off <= k < off + INODE_SIZE ensures t[k] == InodeByte(inode, k - off) {
      assert t[off + (k - off)] == InodeByte(inode, k - off);
    }
  }

  /** The disk after the one block that store marks dirty was written back. */
  function Flushed(g: Geometry, img: seq<Byte>, ino: nat, disk: seq<Block>): seq<Block>
    requires g.Good() && |img| == g.DataStart() * BLOCK_SIZE && IsIno(ino) && |disk| == g.total
  {
    var first := g.InodeOff(ino) / BLOCK_SIZE;
    disk[first := img[first * BLOCK_SIZE..first * BLOCK_SIZE + BLOCK_SIZE]]
  }

  /** The part of the record past the end of its first block is what it was. */
  ghost predicate TailUnchanged(g: Geometry, img: seq<Byte>, ino: nat, inode: Inode)
    requires g.Good() && |img| == g.DataStart() * BLOCK_SIZE && IsIno(ino)
  {
    forall k :: 0 <= k < INODE_SIZE && RecBlock(g, ino, k) != RecBlock(g, ino, 0) ==>
      img[g.InodeOff(ino) + k] == InodeByte(inode, k)
  }

  /** Storing one record in a clean image and syncing leaves disk and image equal
      exactly when the record's bytes in a second block did not change. */
  lemma StoreThenSyncIff(g: Geometry, img: seq<Byte>, disk: seq<Block>, ino: nat, inode: Inode)
    requires g.Good() && |img| == g.DataStart() * BLOCK_SIZE && |disk| == g.total && IsIno(ino)
    requires Clean(g, img, disk)
    ensures var t := Stored(g, img, ino, inode);
            Clean(g, t, Flushed(g, t, ino, disk)) <==> TailUnchanged(g, img, ino, inode)
  {
    hide InodeByte, BitAt;
    if Clean(g, Stored(g, img, ino, inode), Flushed(g, Stored(g, img, ino, inode), ino, disk)) {
      forall k | 0 <= k < INODE_SIZE && RecBlock(g, ino, k) != RecBlock(g, ino, 0)
        ensures img[g.InodeOff(ino) + k] == InodeByte(inode, k)
      {
        SpilledByte(g, img, disk, ino, inode, k);
      }
    }
    if TailUnchanged(g, img, ino, inode) { TailKept(g, img, disk, ino, inode); }
  }

  lemma SpilledByte(g: Geometry, img: seq<Byte>, disk: seq<Block>, ino: nat, inode: Inode, k: nat)
    requires g.Good() && |img| == g.DataStart() * BLOCK_SIZE && |disk| == g.total && IsIno(ino) && k < INODE_SIZE
    requires Clean(g, img, disk)
    requires Clean(g, Stored(g, img, ino, inode), Flushed(g, Stored(g, img, ino, inode), ino, disk))
    requires RecBlock(g, ino, k) != RecBlock(g, ino, 0)
    ensures img[g.InodeOff(ino) + k] == InodeByte(inode, k)
  {
    hide InodeByte;
    var t := Stored(g, img, ino, inode);
    var d := Flushed(g, t, ino, disk);
    var x := g.InodeOff(ino) + k;
    var b, q := x / BLOCK_SIZE, x % BLOCK_SIZE;
    RecordBlock(g, ino, k);
    assert OnDisk(t, d[b], b) && OnDisk(img, disk[b], b);
    assert x == b * BLOCK_SIZE + q;
    assert t[b * BLOCK_SIZE + q] == d[b][q] == disk[b][q] == img[b * BLOCK_SIZE + q];
  }

  lemma TailKept(g: Geometry, img: seq<Byte>, disk: seq<Block>, ino: nat, inode: Inode)
    requires g.Good() && |img| == g.DataStart() * BLOCK_SIZE && |disk| == g.total && IsIno(ino)
    requires Clean(g, img, disk) && TailUnchanged(g, img, ino, inode)
    ensures Clean(g, Stored(g, img, ino, inode), Flushed(g, Stored(g, img, ino, inode), ino, disk))
  {
    hide InodeByte;
    var t := Stored(g, img, ino, inode);
    var off := g.InodeOff(ino);
    var d := Flushed(g, t, ino, disk);
    forall b | 0 <= b < g.DataStart() ensures OnDisk(t, d[b], b) {
      assert OnDisk(img, disk[b], b);
      forall q | 0 <= q < BLOCK_SIZE ensures t[b * BLOCK_SIZE + q] == d[b][q] {
        var x := b * BLOCK_SIZE + q;
        assert x / BLOCK_SIZE == b;
        if b != off / BLOCK_SIZE && off <= x < off + INODE_SIZE {
          assert img[off + (x - off)] == InodeByte(inode, x - off);
        }
      }
    }
  }

  const FILE_PERM: U32 := 0x1A4
  const DIR_PERM: U32 := 0x1ED

  /** A record as create stores it for a new file or directory of user `uid`. */
  function NewRecord(isDir: bool, uid: U32, gid: U32): Inode {
    InodeRec(if isDir then MODE_DIR else MODE_FILE, 0, if isDir then 2 else 1, seq(DIRECT, _ => 0), 0, uid, gid,
             if isDir then DIR_PERM else FILE_PERM)
  }

  /** Whether a sync leaves the disk without part of the record. */
  ghost predicate Loses(g: Geometry, img: seq<Byte>, disk: seq<Block>, ino: nat, inode: Inode)
    requires g.Good() && |img| == g.DataStart() * BLOCK_SIZE && |disk| == g.total && IsIno(ino)
  {
    var t := Stored(g, img, ino, inode);
    !Clean(g, t, Flushed(g, t, ino, disk))
  }

  /** For the four straddling inode numbers a sync loses the record of a new file or
      that of a new directory, whatever was there; for all others it loses nothing. */
  lemma SyncLosesIff(g: Geometry, img: seq<Byte>, disk: seq<Block>, ino: nat, uid: U32, gid: U32)
    requires g.Good() && |img| == g.DataStart() * BLOCK_SIZE && |disk| == g.total && IsIno(ino)
    requires Clean(g, img, disk)
    ensures ino in {108, 216, 324, 432} ==>
              Loses(g, img, disk, ino, NewRecord(false, uid, gid))
                || Loses(g, img, disk, ino, NewRecord(true, uid, gid))
    ensures ino !in {108, 216, 324, 432} ==> forall inode: Inode :: !Loses(g, img, disk, ino, inode)
  {
    StraddlersAre(ino);
    forall inode: Inode | !Straddles(ino) ensures !Loses(g, img, disk, ino, inode) {
      forall k | 0 <= k < INODE_SIZE ensures RecBlock(g, ino, k) == RecBlock(g, ino, 0) { RecordBlock(g, ino, k); }
      StoreThenSyncIff(g, img, disk, ino, inode);
    }
    if Straddles(ino) {
      PermByte(g, ino);
      var x := img[g.InodeOff(ino) + 72];
      var inode := NewRecord(x == 0xA4, uid, gid);
      assert InodeByte(inode, 72) != x;
      assert !TailUnchanged(g, img, ino, inode);
      StoreThenSyncIff(g, img, disk, ino, inode);
    }
  }

  /** Over a table entry that was free, the loss is certain: the new file's permissions. */
  lemma NewFileLost(g: Geometry, img: seq<Byte>, disk: seq<Block>, ino: nat, uid: U32, gid: U32)
    requires g.Good() && |img| == g.DataStart() * BLOCK_SIZE && |disk| == g.total && IsIno(ino) && Straddles(ino)
    requires Clean(g, img, disk) && HoldsInode(img, g.InodeOff(ino), FreeInode())
    ensures Loses(g, img, disk, ino, NewRecord(false, uid, gid))
  {
    PermByte(g, ino);
    var inode := NewRecord(false, uid, gid);
    assert img[g.InodeOff(ino) + 72] == InodeByte(FreeInode(), 72) == 0 && InodeByte(inode, 72) == 0xA4;
    assert !TailUnchanged(g, img, ino, inode);
    StoreThenSyncIff(g, img, disk, ino, inode);
  }

  /** The permission word of a straddling record lies in the second block. */
  lemma PermByte(g: Geometry, ino: nat)
    requires g.Good() && IsIno(ino) && Straddles(ino)
    ensures RecBlock(g, ino, 72) != RecBlock(g, ino, 0)
  {
    RecBlockIs(g, ino, 0);
    RecBlockIs(g, ino, 72);
    hide RecBlock;
    StraddlersAre(ino);
  }

  lemma LastByte(g: Geometry, ino: nat)
    requires g.Good() && IsIno(ino) && Straddles(ino)
    ensures RecBlock(g, ino, 75) != RecBlock(g, ino, 0)
  {
    RecBlockIs(g, ino, 0);
    RecBlockIs(g, ino, 75);
    hide RecBlock;
  }

  lemma RecBlockIs(g: Geometry, ino: nat, k: nat)
    requires IsIno(ino)
    ensures RecBlock(g, ino, k) == g.InodeTable() + ((ino - 1) * INODE_SIZE + k) / BLOCK_SIZE
  {
    var x := (ino - 1) * INODE_SIZE + k;
    assert g.InodeOff(ino) + k == (g.InodeTable() + x / BLOCK_SIZE) * BLOCK_SIZE + x % BLOCK_SIZE;
  }

  /** The metadata blocks of a disk, read one after the other, are a clean image. */
  lemma ReadIn(g: Geometry, img: seq<Byte>, disk: seq<Block>, sb: Superblock)
    requires g.Good() && |img| == g.DataStart() * BLOCK_SIZE && |disk| == g.total && sb.geom == g
    requires forall x :: 0 <= x < |img| ==> img[x] == disk[x / BLOCK_SIZE][x % BLOCK_SIZE]
    requires HoldsSuper(disk[0], sb)
    ensures Clean(g, img, disk) && HoldsSuper(img, sb)
  {
    hide SbByte;
    forall b | 0 <= b < g.DataStart() ensures OnDisk(img, disk[b], b) {
      forall k | 0 <= k < BLOCK_SIZE ensures img[b * BLOCK_SIZE + k] == disk[b][k] {
        assert (b * BLOCK_SIZE + k) / BLOCK_SIZE == b && (b * BLOCK_SIZE + k) % BLOCK_SIZE == k;
      }
    }
    forall k | 0 <= k < BLOCK_SIZE ensures img[k] == SbByte(sb, k) { assert disk[0][k] == SbByte(sb, k); }
  }
}
