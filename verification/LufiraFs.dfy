/** The LufiraFS driver: the RAM image of the metadata with its dirty map, the
    data blocks written straight to disk, and the operations built on them. */
module LufiraVolume {
  import opened LufiraFormat
  import opened LufiraState
  import opened LufiraMeta
  import opened LufiraContent
  import opened LufiraDirs
  import opened LufiraTree
  import opened LufiraNamespace
  import opened LufiraHazards
  import opened LufiraPath

  class LufiraFs {
    const geom: Geometry
    /** Whether every `kmalloc` of the operation at hand succeeds. */
    var heapOk: bool
    /** Whether, otherwise, every one fails rather than some. */
    var starved: bool
    const image: array<Byte>
    const dirty: array<bool>
    var sb: Superblock
    var nextFree: nat
    var disk: seq<Block>

    /** What the image decodes to. */
    ghost var bits: seq<bool>
    ghost var inodes: seq<Inode>
    /** Metadata blocks changed without being marked dirty. */
    ghost var stale: set<nat>

    function DataStart(): nat { geom.DataStart() }

    ghost function S(): State
      reads this
    {
      State(DataStart(), bits, inodes, disk)
    }

    ghost predicate Layout()
      reads this
    {
      && geom.Good() && sb.geom == geom
      && image.Length == DataStart() * BLOCK_SIZE && dirty.Length == DataStart()
      && |disk| == geom.total && Shape(S())
      && DataStart() <= nextFree <= geom.total
    }

    /** Every metadata block that is neither marked dirty nor stale is on disk. */
    ghost predicate Covered()
      reads this, image, dirty
      requires Layout()
    {
      forall b :: 0 <= b < DataStart() && !dirty[b] && b !in stale ==> OnDisk(image[..], disk[b], b)
    }

    /** The ghost tables are what the image decodes to, block 0 of the image is
        the superblock, and the dirty map covers every unsaved change. */
    ghost predicate MetaOk()
      reads this, image, dirty
      ensures MetaOk() ==> Layout()
    {
      && Layout()
      && DecodesTo(geom, image[..], bits, inodes)
      && HoldsSuper(image[..], sb)
      && Covered() && Losable(geom, stale)
    }

    ghost predicate Counted()
      reads this
      requires Shape(S())
    {
      sb.freeBlocks == ClearFrom(bits, DataStart())
    }

    /** `lufirafs_init` on a disk whose block 0 is the superblock `super`: the
        metadata blocks are read into the image, the dirty map starts empty. */
    constructor Mount(d: seq<Block>, super: Superblock, heap: bool)
      requires super.geom.Good() && |d| == super.geom.total && HoldsSuper(d[0], super)
      ensures geom == super.geom && sb == super && disk == d && heapOk == heap
      ensures MetaOk() && stale == {} && Clean(geom, image[..], disk)
      ensures fresh(image) && fresh(dirty)
    {
      hide DecodesTo, HoldsSuper, OnDisk;
      geom, heapOk, sb, disk, stale := super.geom, heap, super, d, {};
      var n := super.geom.DataStart();
      image := new Byte[n * BLOCK_SIZE](i requires 0 <= i < n * BLOCK_SIZE => d[i / BLOCK_SIZE][i % BLOCK_SIZE]);
      dirty := new bool[n](_ => false);
      nextFree := n;
      new;
      bits, inodes := Decode(geom, image[..]);
      ReadIn(geom, image[..], d, super);
    }

    // ------------------------------------------------------------- metadata

    method Kmalloc() returns (ok: bool)
      ensures heapOk ==> ok
      ensures Starved() ==> !ok
    {
      ok := *;
      ok := heapOk || (ok && !starved);
    }

    ghost predicate Starved()
      reads this
    {
      starved && !heapOk
    }

    /** The environment's answer for the next calls of `kmalloc`. */
    method SetHeap(h: bool)
      modifies this`heapOk
      ensures heapOk == h && (old(MetaOk()) ==> MetaOk()) && (old(Valid()) ==> Valid())
    {
      heapOk := h;
    }

    /** The environment's answer where not every call succeeds: none does, or some may. */
    method SetStarved(b: bool)
      modifies this`starved
      ensures starved == b && (old(MetaOk()) ==> MetaOk()) && (old(Valid()) ==> Valid())
    {
      starved := b;
    }

    method MarkDirty(block: nat)
      requires Layout()
      modifies dirty
      ensures forall b :: 0 <= b < DataStart() ==> dirty[b] == (old(dirty[b]) || b == block)
    {
      if block >= DataStart() { return; }
      dirty[block] := true;
    }

    method WriteSuperblock()
      requires Layout() && DecodesTo(geom, image[..], bits, inodes) && Covered() && Losable(geom, stale)
      modifies image, dirty
      ensures MetaOk()
    {
      ghost var img := image[..];
      for k := 0 to BLOCK_SIZE
        modifies image
        invariant forall j :: 0 <= j < k ==> image[j] == SbByte(sb, j)
        invariant forall j :: k <= j < image.Length ==> image[j] == img[j]
      {
        image[k] := SbByte(sb, k);
      }
      MarkDirty(0);
      SuperImage(geom, img, image[..], bits, inodes);
      forall b | 0 <= b < DataStart() && !dirty[b] && b !in stale ensures OnDisk(image[..], disk[b], b) {
        assert OnDisk(img, disk[b], b);
      }
    }

    /** `block_bitmap_set`. */
    method SetBit(block: nat, used: bool)
      requires MetaOk() && block < geom.total
      modifies this`bits, this`stale, image, dirty
      ensures MetaOk() && bits == old(bits)[block := used] && stale <= old(stale)
    {
      hide WithBit;
      ghost var img := image[..];
      var x := BLOCK_SIZE + block / 8;
      BitImage(geom, img, bits, inodes, block, used);
      image[x] := WithBit(image[x], block % 8, used);
      assert image[..] == img[x := WithBit(img[x], block % 8, used)];
      SuperFrame(img, image[..], sb);
      MarkDirty(1 + block / 8 / BLOCK_SIZE);
      bits := bits[block := used];
      forall b | 0 <= b < DataStart() && !dirty[b] && b !in stale ensures OnDisk(image[..], disk[b], b) {
        BitElsewhere(img, image[..], block, disk[b], b);
      }
    }

    method ReadInode(ino: nat) returns (ok: bool, inode: Inode)
      requires MetaOk()
      ensures ok == IsIno(ino)
      ensures ok ==> inode == inodes[ino - 1]
    {
      if ino == 0 || ino > INODE_COUNT { return false, FreeInode(); }
      assert IsIno(ino);
      ok, inode := true, InodeAt(image[..], geom.InodeOff(ino));
    }

    method PutInodeBytes(ino: nat, inode: Inode)
      requires Layout() && IsIno(ino)
      modifies image
      ensures HoldsInode(image[..], geom.InodeOff(ino), inode)
      ensures forall j :: 0 <= j < image.Length && !(geom.InodeOff(ino) <= j < geom.InodeOff(ino) + INODE_SIZE) ==>
                image[j] == old(image[j])
    {
      var off := geom.InodeOff(ino);
      for k := 0 to INODE_SIZE
        invariant forall j :: 0 <= j < k ==> image[off + j] == InodeByte(inode, j)
        invariant forall j :: 0 <= j < image.Length && !(off <= j < off + k) ==> image[j] == old(image[j])
      {
        image[off + k] := InodeByte(inode, k);
      }
    }

    /** Stores a record and marks the block of its first byte dirty. */
    method WriteInode(ino: nat, inode: Inode)
      requires MetaOk() && IsIno(ino)
      modifies this`inodes, this`stale, image, dirty
      ensures MetaOk() && inodes == old(inodes)[ino - 1 := inode]
      ensures stale <= old(stale) + Spill(geom, ino)
      ensures image[..] == Stored(geom, old(image[..]), ino, inode)
      ensures forall b :: 0 <= b < DataStart() ==> dirty[b] == (old(dirty[b]) || b == geom.InodeOff(ino) / BLOCK_SIZE)
    {
      hide DecodesTo, OnDisk, HoldsInode, HoldsSuper, Straddles, Stored, Losable, Spill;
      ghost var img := image[..];
      PutInodeBytes(ino, inode);
      ghost var t := image[..];
      IsStored(geom, img, t, ino, inode);
      InodeImage(geom, img, t, bits, inodes, ino, inode);
      SuperFrame(img, t, sb);
      SpillLosable(geom, ino);
      LosableBoth(geom, stale, Spill(geom, ino));
      MarkDirty(geom.InodeOff(ino) / BLOCK_SIZE);
      assert image[..] == t;
      inodes := inodes[ino - 1 := inode];
      stale := stale + Spill(geom, ino);
      forall b | 0 <= b < DataStart() && !dirty[b] && b !in stale ensures OnDisk(image[..], disk[b], b) {
        SpillCover(geom, img, t, ino, disk[b], b);
      }
    }

    // ---------------------------------------------------------- data blocks

    method ReadDataBlock(block: nat) returns (ok: bool, buf: Block)
      requires Layout()
      ensures ok == (DataStart() <= block < geom.total)
      ensures ok ==> buf == disk[block]
    {
      if block < DataStart() || block >= geom.total { return false, ZeroBlock(); }
      ok, buf := true, disk[block];
    }

    method WriteDataBlock(block: nat, buf: Block)
      requires MetaOk()
      modifies this`disk
      ensures MetaOk()
      ensures disk == if DataStart() <= block < geom.total then old(disk)[block := buf] else old(disk)
    {
      if block < DataStart() || block >= geom.total { return; }
      disk := disk[block := buf];
    }

    /** Writes every dirty metadata block; a block whose write fails stays dirty. */
    method Sync() returns (ok: bool)
      requires MetaOk()
      modifies this`disk, dirty
      ensures MetaOk()
      ensures forall b :: DataStart() <= b < geom.total ==> disk[b] == old(disk)[b]
      ensures forall b :: 0 <= b < DataStart() && !old(dirty[b]) ==> disk[b] == old(disk)[b]
      ensures ok ==> forall b :: 0 <= b < DataStart() ==>
                !dirty[b] && (old(dirty[b]) || b !in stale ==> OnDisk(image[..], disk[b], b))
    {
      hide MetaOk, OnDisk;
      ok := true;
      for b := 0 to DataStart()
        invariant MetaOk()
        invariant forall x :: DataStart() <= x < geom.total ==> disk[x] == old(disk)[x]
        invariant forall x :: b <= x < DataStart() ==> dirty[x] == old(dirty[x])
        invariant forall x :: 0 <= x < DataStart() && !old(dirty[x]) ==> disk[x] == old(disk)[x] && !dirty[x]
        invariant ok ==> forall x :: 0 <= x < b && old(dirty[x]) ==> OnDisk(image[..], disk[x], x)
        invariant ok ==> forall x :: 0 <= x < b ==> !dirty[x]
      {
        if dirty[b] {
          var written: bool := *;
          if written { Flush(b); } else { ok := false; }
        }
      }
      SavedAll();
    }

    /** One dirty block is written and marked clean. */
    method Flush(b: nat)
      requires MetaOk() && b < DataStart()
      modifies this`disk, dirty
      ensures MetaOk() && OnDisk(image[..], disk[b], b) && |disk| == |old(disk)|
      ensures forall x :: 0 <= x < |disk| && x != b ==> disk[x] == old(disk)[x]
      ensures !dirty[b] && forall x :: 0 <= x < DataStart() && x != b ==> dirty[x] == old(dirty[x])
    {
      disk := disk[b := image[b * BLOCK_SIZE..b * BLOCK_SIZE + BLOCK_SIZE]];
      dirty[b] := false;
    }

    lemma SavedAll()
      requires MetaOk()
      ensures forall b :: 0 <= b < DataStart() && !dirty[b] && b !in stale ==> OnDisk(image[..], disk[b], b)
    {
      hide OnDisk, DecodesTo, HoldsSuper;
    }

    // ------------------------------------------------------------ allocator

    /** The two passes of `alloc_block`: from the cursor to the end, then from
        the first data block to the cursor. */
    method FindClear() returns (b: nat)
      requires MetaOk()
      ensures b == 0 ==> Full(S())
      ensures b != 0 ==> DataStart() <= b < geom.total && !bits[b]
    {
      b := 0;
      for pass := 0 to 2
        invariant b == 0
        invariant pass >= 1 ==> forall x :: nextFree <= x < geom.total ==> bits[x]
        invariant pass >= 2 ==> forall x :: DataStart() <= x < nextFree ==> bits[x]
      {
        var start := if pass == 0 then nextFree else DataStart();
        var end := if pass == 0 then geom.total else nextFree;
        for c := start to end
          invariant b == 0 && forall x :: start <= x < c ==> bits[x]
        {
          if !BitAt(image[..], BLOCK_SIZE, c) { return c; }
        }
      }
    }

    /** Claims and zeroes a clear block; one that cannot be zeroed is given back. */
    method AllocBlock() returns (b: nat)
      requires MetaOk() && Counted()
      modifies this`bits, this`inodes, this`stale, this`sb, this`nextFree, this`disk, image, dirty
      ensures sb.freeInodes == old(sb.freeInodes)
      ensures MetaOk() && Counted() && stale <= old(stale)
      ensures b == 0 ==> S() == old(S()) && (heapOk ==> Full(S()))
      ensures b != 0 ==> DataStart() <= b < geom.total && !old(bits)[b] && S() == Allocated(old(S()), b)
    {
      b := FindClear();
      hide MetaOk;
      if b == 0 { return; }
      SetBit(b, true);
      var ok := Kmalloc();
      if !ok {
        SetBit(b, false);
        assert bits == old(bits);
        b := 0;
        return;
      }
      WriteDataBlock(b, ZeroBlock());
      ClearFromUpdate(old(bits), DataStart(), b, true);
      SetCounters(if sb.freeBlocks > 0 then sb.freeBlocks - 1 else 0, sb.freeInodes);
      MoveCursor(b + 1);
    }

    /** Stores the counters and rewrites the superblock in the image. */
    method SetCounters(freeBlocks: U32, freeInodes: U32)
      requires MetaOk()
      modifies this`sb, image, dirty
      ensures MetaOk() && sb.freeBlocks == freeBlocks && sb.freeInodes == freeInodes
    {
      sb := Superblock(geom, freeBlocks, freeInodes);
      WriteSuperblock();
    }

    method MoveCursor(b: nat)
      requires MetaOk() && DataStart() <= b <= geom.total
      modifies this`nextFree
      ensures MetaOk()
    {
      nextFree := b;
    }

    method FreeDataBlock(block: nat)
      requires MetaOk() && Counted()
      requires block != 0 ==> DataStart() <= block < geom.total && bits[block]
      modifies this`bits, this`stale, this`sb, image, dirty
      ensures sb.freeInodes == old(sb.freeInodes)
      ensures MetaOk() && Counted() && stale <= old(stale)
      ensures bits == if block == 0 then old(bits) else old(bits)[block := false]
    {
      hide MetaOk;
      if block == 0 { return; }
      ClearFromUpdate(bits, DataStart(), block, false);
      SetBit(block, false);
      SetCounters(sb.freeBlocks + 1, sb.freeInodes);  // at most the block count: the word cannot wrap
    }

    // ------------------------------------------------------- block of a file

    /** `inode_get_block` with `create == 0`: the block number in slot `k`, or 0. */
    method FindBlock(inode: Inode, k: nat) returns (bn: nat)
      requires Layout() && (inode.indirect != 0 ==> DataStart() <= inode.indirect < geom.total)
      ensures bn != 0 ==> k < MAX_BLOCKS && bn == SlotOf(disk, inode, k)
      ensures bn == 0 && k < MAX_BLOCKS && (heapOk || k < DIRECT) ==> SlotOf(disk, inode, k) == 0
    {
      if k < DIRECT { return inode.direct[k]; }
      var idx := k - DIRECT;
      if idx >= PTRS { return 0; }
      if inode.indirect == 0 { return 0; }
      bn := 0;
      var ok := Kmalloc();
      if !ok { return; }
      var buf;
      ok, buf := ReadDataBlock(inode.indirect);
      if !ok { return; }
      bn := GetU32(buf, 4 * idx);
    }

    /** `inode_get_block` with `create == 1`: an empty slot of the caller's copy
        (and the indirect block, if need be) is filled first. */
    method InodeGetBlock(ghost ino: nat, inode: Inode, k: nat) returns (r: Inode, bn: nat)
      requires MetaOk() && Counted() && IsIno(ino) && Inv(View(S(), ino, inode))
      modifies this`bits, this`inodes, this`stale, this`sb, this`nextFree, this`disk, image, dirty
      ensures sb.freeInodes == old(sb.freeInodes)
      ensures MetaOk() && Counted() && stale <= old(stale) && inodes == old(inodes)
      ensures Grew(old(View(S(), ino, inode)), View(S(), ino, r), ino, k)
      ensures bn != 0 ==> k < MAX_BLOCKS && bn == Ptr(View(S(), ino, r), ino, k)
      ensures bn == 0 ==> Inv(View(S(), ino, inode)) && SameBlocks(old(View(S(), ino, inode)), View(S(), ino, inode))
      ensures bn == 0 && heapOk && k < MAX_BLOCKS ==> Full(S())
      ensures bn == 0 && k < DIRECT ==> S() == old(S())
    {
      hide MetaOk, Owned, Unshared;
      ghost var v0 := View(S(), ino, inode);
      r, bn := inode, 0;
      if k < DIRECT {
        if inode.direct[k] == 0 {
          bn := AllocBlock();
          assert View(S(), ino, inode) == if bn == 0 then v0 else Allocated(v0, bn);
          if bn == 0 { return; }
          GrewDirect(v0, ino, k, bn);
          r := inode.(direct := inode.direct[k := bn]);
          assert View(S(), ino, r) == View(Allocated(v0, bn), ino, r);
          return;
        }
        bn := inode.direct[k];
        return;
      }
      if k - DIRECT >= PTRS { return; }
      if inode.indirect == 0 {
        var ib := AllocBlock();
        assert View(S(), ino, inode) == if ib == 0 then v0 else Allocated(v0, ib);
        if ib == 0 { return; }
        GrewIndirect(v0, ino, k, ib);
        r := inode.(indirect := ib);
        assert View(S(), ino, r) == View(Allocated(v0, ib), ino, r);
      }
      ghost var v1 := View(S(), ino, r);
      bn := GetEntry(ino, r, k);
      GrewTrans(v0, v1, View(S(), ino, r), ino, k);
      if bn == 0 && inode.indirect == 0 {
        DropIndirect(v1, ino, inode);
        assert View(v1, ino, inode) == View(S(), ino, inode);
      }
    }

    /** The part of `inode_get_block` that reads, and may fill, the indirect block. */
    method GetEntry(ghost ino: nat, inode: Inode, k: nat) returns (bn: nat)
      requires MetaOk() && Counted() && IsIno(ino) && Inv(View(S(), ino, inode))
      requires DIRECT <= k < MAX_BLOCKS && inode.indirect != 0
      modifies this`bits, this`inodes, this`stale, this`sb, this`nextFree, this`disk, image, dirty
      ensures sb.freeInodes == old(sb.freeInodes)
      ensures MetaOk() && Counted() && stale <= old(stale) && inodes == old(inodes)
      ensures Grew(old(View(S(), ino, inode)), View(S(), ino, inode), ino, k)
      ensures bn == 0 ==> S() == old(S())
      ensures bn != 0 ==> bn == Ptr(View(S(), ino, inode), ino, k)
      ensures bn == 0 && heapOk ==> Full(S())
    {
      hide MetaOk, Unshared;
      ghost var v0 := View(S(), ino, inode);
      assert Ptr(v0, ino, IND) == inode.indirect;
      bn := 0;
      var idx := k - DIRECT;
      var ok := Kmalloc();
      if !ok { return; }
      var buf;
      ok, buf := ReadDataBlock(inode.indirect);
      if !ok { return; }
      bn := GetU32(buf, 4 * idx);
      if bn == 0 {
        bn := AllocBlock();
        if bn != 0 {
          GrewEntry(v0, ino, k, bn);
          WriteDataBlock(inode.indirect, PutU32(buf, 4 * idx, bn));
          assert View(S(), ino, inode) == EntrySet(Allocated(v0, bn), ino, k, bn);
        }
      }
    }

    // ---------------------------------------------------- contents of a file

    /** Between operations: the image is in order, ownership holds and the free
        count is right. */
    ghost predicate Valid()
      reads this, image, dirty
    {
      MetaOk() && Counted() && Inv(S())
    }

    /** The contents of data block `k` as the driver reads them: a hole, or a
        block it cannot reach, reads as zeros. */
    method LoadBlock(ghost ino: nat, inode: Inode, k: nat) returns (buf: Block)
      requires MetaOk() && IsIno(ino) && Inv(View(S(), ino, inode))
      ensures heapOk || k < DIRECT ==> buf == BlockAt(View(S(), ino, inode), ino, k)
    {
      hide MetaOk, Unshared;
      assert Ptr(View(S(), ino, inode), ino, IND) == inode.indirect;
      var bn := FindBlock(inode, k);
      if bn == 0 { return ZeroBlock(); }
      var ok;
      ok, buf := ReadDataBlock(bn);
    }

    /** One turn of the loop of `lufirafs_read`: bytes `pos..pos + chunk`, which
        lie in one block, go to `buf` at `dst`. */
    method CopyChunk(ghost ino: nat, inode: Inode, pos: nat, chunk: nat, buf: array<Byte>, dst: nat)
      requires Valid() && IsIno(ino) && inode == InodeOf(S(), ino)
      requires buf != image && dst + chunk <= buf.Length && pos % BLOCK_SIZE + chunk <= BLOCK_SIZE
      modifies buf
      ensures Valid()
      ensures heapOk ==> forall q :: dst <= q < dst + chunk ==> buf[q] == ByteAt(S(), ino, pos + q - dst)
      ensures forall q :: 0 <= q < buf.Length && !(dst <= q < dst + chunk) ==> buf[q] == old(buf[q])
    {
      assert View(S(), ino, inode) == S();
      var block := LoadBlock(ino, inode, pos / BLOCK_SIZE);
      hide MetaOk, Inv;
      forall q | 0 <= q < chunk { buf[dst + q] := block[pos % BLOCK_SIZE + q]; }
      forall q | dst <= q < dst + chunk ensures heapOk ==> buf[q] == ByteAt(S(), ino, pos + q - dst) {
        assert buf[dst + (q - dst)] == block[pos % BLOCK_SIZE + (q - dst)];
        InOneBlock(pos, q - dst);
      }
    }

    /** `lufirafs_read`; `n` is the number of bytes copied. The end of the range is computed in
        32 bits: when that wraps to a value inside the file, the count is not clipped and the
        copy runs past the end. */
    method Read(ino: nat, offset: U32, buf: array<Byte>, count: U32) returns (r: int, ghost n: nat)
      requires Valid() && buf != image && count <= buf.Length
      modifies buf
      ensures if IsIno(ino) && heapOk then n == ReadLen(InodeOf(S(), ino).size, offset, count)
              else n == 0 || (IsIno(ino) && n == ReadLen(InodeOf(S(), ino).size, offset, count))
      ensures n < 0x1_0000_0000 && (r == ToInt(n) || (r == -1 && n == 0 && !(IsIno(ino) && heapOk)))
      ensures n > 0 ==> (offset + n <= InodeOf(S(), ino).size <==> RangeKnown(InodeOf(S(), ino).size, offset, count))
      ensures heapOk ==> forall q :: 0 <= q < n ==> buf[q] == ByteAt(S(), ino, Pos32(offset + q))
      ensures n > 0 && heapOk && RangeKnown(InodeOf(S(), ino).size, offset, count) ==>
                buf[..n] == Content(S(), ino)[offset..offset + n]
      ensures forall q :: n <= q < buf.Length ==> buf[q] == old(buf[q])
    {
      hide MetaOk, Inv, Counted, ByteAt, Content;
      n := 0;
      var ok, inode := ReadInode(ino);
      if !ok { return -1, 0; }
      if offset >= inode.size { return 0, 0; }
      var len := if (offset + count) % 0x1_0000_0000 > inode.size then inode.size - offset else count;
      ok := Kmalloc();
      if !ok { return -1, 0; }
      ReadLoop(ino, inode, offset, len, buf);
      r, n := ToInt(len), len;
      if len > 0 {
        ReadLenFits(inode.size, offset, count);
        if heapOk && RangeKnown(inode.size, offset, count) { ContentWindow(S(), ino, offset, buf[..len]); }
      }
    }

    /** The loop of `lufirafs_read`, with its 32-bit position. */
    method ReadLoop(ghost ino: nat, inode: Inode, offset: nat, n: nat, buf: array<Byte>)
      requires Valid() && IsIno(ino) && inode == InodeOf(S(), ino) && buf != image && n <= buf.Length
      requires offset < 0x1_0000_0000
      modifies buf
      ensures Valid()
      ensures heapOk ==> forall q :: 0 <= q < n ==> buf[q] == ByteAt(S(), ino, Pos32(offset + q))
      ensures forall q :: n <= q < buf.Length ==> buf[q] == old(buf[q])
    {
      hide MetaOk, Inv, Counted, ByteAt, Pos32;
      var remaining, pos, dst := n, offset, 0;
      assert pos == Pos32(offset + dst) by { Small(offset); }
      while remaining > 0
        invariant 0 <= dst <= n && dst + remaining == n && pos == Pos32(offset + dst)
        invariant Valid()
        invariant heapOk ==> forall q :: 0 <= q < dst ==> buf[q] == ByteAt(S(), ino, Pos32(offset + q))
        invariant forall q :: dst <= q < buf.Length ==> buf[q] == old(buf[q])
      {
        var blockOff := pos % BLOCK_SIZE;
        var chunk := if BLOCK_SIZE - blockOff > remaining then remaining else BLOCK_SIZE - blockOff;
        CopyChunk(ino, inode, pos, chunk, buf, dst);
        forall q | dst <= q < dst + chunk ensures heapOk ==> buf[q] == ByteAt(S(), ino, Pos32(offset + q)) {
          WrapInBlock(offset + dst, q - dst);
        }
        WrapNext(offset + dst, chunk);
        dst, pos, remaining := dst + chunk, Pos32(pos + chunk), remaining - chunk;
      }
    }

    /** One turn of the loop of `lufirafs_write`: `d` is stored already, `c` is the
        next chunk and lies in one block. */
    method WriteChunk(ghost s0: State, ino: nat, inode: Inode, offset: nat, d: seq<Byte>, c: seq<Byte>)
      returns (r: Inode, stored: bool)
      requires MetaOk() && Counted() && Shape(s0) && IsIno(ino) && offset + |d| + |c| <= MAX_FILE_SIZE
      requires Patched(s0, View(S(), ino, inode), ino, offset, d)
      requires 0 < |c| && (offset + |d|) % BLOCK_SIZE + |c| <= BLOCK_SIZE
      modifies this`bits, this`inodes, this`stale, this`sb, this`nextFree, this`disk, image, dirty
      ensures sb.freeInodes == old(sb.freeInodes)
      ensures MetaOk() && Counted() && inodes == old(inodes) && stale <= old(stale)
      ensures r.size == inode.size
      ensures Patched(s0, View(S(), ino, r), ino, offset, if stored then d + c else d)
      ensures !stored && heapOk ==> Full(S())
    {
      hide MetaOk, Inv, Patched;
      var pos := offset + |d|;
      ghost var v := View(S(), ino, inode);
      var bn;
      r, bn := InodeGetBlock(ino, inode, pos / BLOCK_SIZE);
      ghost var w := View(S(), ino, r);
      PatchedGrew(s0, v, w, ino, offset, d, pos / BLOCK_SIZE);
      stored := bn != 0;
      if bn == 0 { return; }
      PtrInRange(w, ino, pos / BLOCK_SIZE);
      var ok, buf := true, c;
      if pos % BLOCK_SIZE != 0 || |c| != BLOCK_SIZE {
        ok, buf := ReadDataBlock(bn);
        buf := PatchBlock(buf, pos % BLOCK_SIZE, c);
      }
      assert buf == PatchBlock(BlockAt(w, ino, pos / BLOCK_SIZE), pos % BLOCK_SIZE, c);
      PatchedStep(s0, w, ino, offset, d, c);
      WriteDataBlock(bn, buf);
      assert View(S(), ino, r) == BlockSet(w, ino, pos / BLOCK_SIZE, buf);
    }

    /** Both exits of `lufirafs_write`: the size grows if need be and the inode is stored. */
    method FinishWrite(ghost s0: State, ino: nat, inode: Inode, offset: nat, d: seq<Byte>)
      requires MetaOk() && Counted() && Shape(s0) && IsIno(ino) && offset + |d| <= MAX_FILE_SIZE
      requires Patched(s0, View(S(), ino, inode), ino, offset, d) && inode.size == InodeOf(s0, ino).size
      modifies this`inodes, this`stale, image, dirty
      ensures Valid() && Wrote(s0, S(), ino, offset, d)
      ensures bits == old(bits) && disk == old(disk)
      ensures stale <= old(stale) + Spill(geom, ino)
    {
      hide MetaOk, Inv, Patched;
      ghost var v := View(S(), ino, inode);
      var done := if offset + |d| > inode.size then inode.(size := offset + |d|) else inode;
      WriteInode(ino, done);
      WroteSized(s0, v, ino, offset, d, done.size);
      assert S() == View(v, ino, inode.(size := done.size));
    }

    /** `lufirafs_write`. `written` is the number of bytes stored; the call
        returns -1 instead of 0 when no byte could be stored. */
    method Write(ino: nat, offset: U32, src: seq<Byte>) returns (r: int, ghost written: nat)
      requires Valid() && |src| < 0x1_0000_0000
      modifies this`bits, this`inodes, this`stale, this`sb, this`nextFree, this`disk, image, dirty
      ensures sb.freeInodes == old(sb.freeInodes)
      ensures Valid() && written <= |src|
      ensures r == if written > 0 || (r == 0 && src == []) then written else -1
      ensures !IsIno(ino) || offset + |src| > MAX_FILE_SIZE ==> r == -1 && S() == old(S())
      ensures S() != old(S()) ==> IsIno(ino) && Wrote(old(S()), S(), ino, offset, src[..written])
      ensures IsIno(ino) && heapOk && offset + |src| <= MAX_FILE_SIZE ==>
                Wrote(old(S()), S(), ino, offset, src[..written]) && (written == |src| || Full(S()))
      ensures stale <= old(stale) + Spill(geom, ino)
    {
      hide MetaOk, Inv, Patched, Wrote, Spill;
      var ok, inode := ReadInode(ino);
      r, written := -1, 0;
      if !ok { return; }
      if offset + |src| > MAX_FILE_SIZE { return; }
      ok := Kmalloc();
      if !ok { return; }
      ghost var s0 := S();
      assert View(S(), ino, inode) == S();
      PatchedRefl(S(), ino, offset);
      var pos := offset;
      while pos < offset + |src|
        invariant offset <= pos <= offset + |src|
        invariant MetaOk() && Counted() && inodes == s0.inodes && stale <= old(stale)
        invariant sb.freeInodes == old(sb.freeInodes)
        invariant inode.size == s0.inodes[ino - 1].size
        invariant Patched(s0, View(S(), ino, inode), ino, offset, src[..pos - offset])
      {
        var left := offset + |src| - pos;
        var chunk := if BLOCK_SIZE - pos % BLOCK_SIZE > left then left else BLOCK_SIZE - pos % BLOCK_SIZE;
        var stored;
        var at := pos - offset;
        Joined(src, at, chunk);
        inode, stored := WriteChunk(s0, ino, inode, offset, src[..at], src[at..at + chunk]);
        if !stored {
          written := pos - offset;
          FinishWrite(s0, ino, inode, offset, src[..pos - offset]);
          r := if pos - offset > 0 then pos - offset else -1;
          return;
        }
        pos := pos + chunk;
      }
      written := |src|;
      assert src[..written] == src;
      FinishWrite(s0, ino, inode, offset, src);
      r := |src|;
    }

    method Truncate(ino: nat, newSize: U32) returns (r: int)
      requires Valid()
      modifies this`bits, this`inodes, this`stale, this`sb, this`nextFree, this`disk, image, dirty
      ensures sb.freeInodes == old(sb.freeInodes)
      ensures Valid()
      ensures r == if IsIno(ino) then 0 else -1
      ensures if IsIno(ino) then Cut(old(S()), S(), ino, newSize, heapOk) else S() == old(S())
      ensures IsIno(ino) ==> CutBack(old(S()), bits, ino, newSize, heapOk)
      ensures IsIno(ino) && heapOk ==> sb.freeBlocks == old(sb.freeBlocks) + |CutHeld(old(S()), ino, newSize)|
      ensures stale <= old(stale) + Spill(geom, ino)
    {
      hide MetaOk, Inv, GaveUp, Shrunk, Cut, Returned, NBlocks;
      var ok, inode := ReadInode(ino);
      if !ok { return -1; }
      r := 0;
      ghost var s0 := S();
      if newSize < inode.size {
        ghost var freed;
        inode, freed := CutBlocks(ino, inode, newSize);
        CutDone(s0, View(S(), ino, inode), ino, newSize, freed, heapOk);
      } else {
        Stretched(s0, ino, newSize, heapOk);
      }
      ghost var v := View(S(), ino, inode);
      inode := inode.(size := newSize);
      WriteInode(ino, inode);
      assert S() == View(v, ino, inode);
      CutCount(s0, bits, ino, newSize, heapOk);
    }

    /** The shrinking half of `lufirafs_truncate`, on the caller's inode copy. */
    method CutBlocks(ghost ino: nat, orig: Inode, newSize: U32) returns (inode: Inode, ghost freed: set<nat>)
      requires Valid() && IsIno(ino) && orig == InodeOf(S(), ino) && newSize < orig.size
      modifies this`bits, this`inodes, this`stale, this`sb, this`nextFree, this`disk, image, dirty
      ensures sb.freeInodes == old(sb.freeInodes)
      ensures MetaOk() && Counted() && stale <= old(stale) && inodes == old(inodes)
      ensures SameOwner(inode, orig)
      ensures GaveUp(old(S()), View(S(), ino, inode), ino, freed)
      ensures Shrunk(old(S()), View(S(), ino, inode), ino, newSize, heapOk)
      ensures Returned(old(S()), bits, ino, NBlocks(newSize), NBlocks(orig.size), NBlocks(newSize) == 0, heapOk)
    {
      hide MetaOk, Owned, Unshared, GivenBack, Clearing, GaveUp, Returned;
      ghost var s0 := S();
      PtrIsIndirect(s0, ino);
      var newN := NBlocks(newSize);
      var have, buf, dirtied;
      inode, have, buf, dirtied, freed := CutLoop(ino, orig, newSize);
      if have && dirtied { WriteDataBlock(inode.indirect, buf); }
      ghost var v := View(S(), ino, inode);
      assert v.disk == if have then s0.disk[Ptr(s0, ino, IND) := buf] else s0.disk;
      ClearingDone(s0, v, ino, inode, have, buf, freed);
      ghost var slots := freed;
      if newN == 0 && inode.indirect != 0 {
        FreeSlot(s0, bits, ino, freed, IND);
        FreeDataBlock(inode.indirect);
        inode := inode.(indirect := 0);
        IndirectGone(s0, v, View(S(), ino, inode), ino, freed);
        freed := freed + {IND};
      }
      AllReturned(s0, bits, ino, slots, freed, newN, NBlocks(orig.size), newN == 0, heapOk);
    }

    /** The loop of `lufirafs_truncate` with what it prepares. */
    method CutLoop(ghost ino: nat, orig: Inode, newSize: U32)
      returns (inode: Inode, have: bool, buf: Block, dirtied: bool, ghost freed: set<nat>)
      requires Valid() && IsIno(ino) && orig == InodeOf(S(), ino) && newSize < orig.size
      modifies this`bits, this`stale, this`sb, image, dirty
      ensures sb.freeInodes == old(sb.freeInodes)
      ensures MetaOk() && Counted() && stale <= old(stale)
      ensures GivenBack(old(S()), bits, ino, freed)
      ensures Clearing(old(S()), ino, inode, have, buf, freed)
      ensures SameOwner(inode, orig) && inode.indirect == orig.indirect
      ensures have ==> DataStart() <= orig.indirect < geom.total && (dirtied || buf == disk[orig.indirect])
      ensures FreedOnly(disk, orig, freed, NBlocks(newSize), NBlocks(orig.size))
      ensures FreedAll(disk, orig, freed, NBlocks(newSize), NBlocks(orig.size), heapOk)
    {
      hide MetaOk, Owned, Unshared, GivenBack, Clearing, SlotOf, PutU32, GetU32, NBlocks, FreedOnly, FreedAll, MustGo;
      ghost var s0 := S();
      PtrIsIndirect(s0, ino);
      inode, freed, dirtied := orig, {}, false;
      var oldN, newN := NBlocks(orig.size), NBlocks(newSize);
      var need := orig.indirect != 0 && oldN > DIRECT && newN < oldN;
      have, buf := false, ZeroBlock();
      if need {
        have := Kmalloc();
        if have { have, buf := ReadDataBlock(orig.indirect); }
      }
      var loopEnd := if need && !have then (if newN > DIRECT then newN else DIRECT) else oldN;
      var b := newN;
      ClearingStart(s0, ino, have, buf);
      FreedNone(disk, orig, newN, heapOk);
      while b < loopEnd
        invariant b >= newN && (b <= loopEnd || b == newN)
        invariant MetaOk() && Counted() && stale <= old(stale) && sb.freeInodes == old(sb.freeInodes)
        invariant GivenBack(s0, bits, ino, freed)
        invariant Clearing(s0, ino, inode, have, buf, freed)
        invariant SameOwner(inode, orig) && inode.indirect == orig.indirect
        invariant have ==> DataStart() <= orig.indirect < geom.total && (dirtied || buf == disk[orig.indirect])
        invariant FreedOnly(disk, orig, freed, newN, b) && FreedAll(disk, orig, freed, newN, b, heapOk)
      {
        ClearingSlot(s0, ino, inode, have, buf, freed, b);
        FreedBefore(disk, orig, freed, newN, b);
        var cleared;
        ghost var was := freed;
        inode, buf, cleared, freed := CutOne(s0, ino, orig, inode, have, buf, freed, b);
        FreedNext(disk, orig, was, freed, newN, b, heapOk);
        dirtied := dirtied || cleared;
        b := b + 1;
      }
      FreedRest(disk, orig, freed, newN, b, oldN, heapOk);
    }

    /** One turn of that loop: the block in slot `b`, if any, is freed and its pointer cleared. */
    method CutOne(ghost s0: State, ghost ino: nat, ghost orig: Inode, inode: Inode, have: bool, buf: Block,
                  ghost freed: set<nat>, b: nat)
      returns (inode': Inode, buf': Block, cleared: bool, ghost freed': set<nat>)
      requires MetaOk() && Counted() && Inv(s0) && IsIno(ino) && orig == InodeOf(s0, ino) && b !in freed
      requires s0.dataStart == DataStart() && s0.disk == disk && |s0.bits| == |bits|
      requires GivenBack(s0, bits, ino, freed) && Clearing(s0, ino, inode, have, buf, freed)
      requires DIRECT <= b < MAX_BLOCKS && SlotOf(disk, inode, b) != 0 ==> have
      modifies this`bits, this`stale, this`sb, image, dirty
      ensures MetaOk() && Counted() && stale <= old(stale) && sb.freeInodes == old(sb.freeInodes)
      ensures GivenBack(s0, bits, ino, freed') && Clearing(s0, ino, inode', have, buf', freed')
      ensures SameOwner(inode', inode) && inode'.indirect == inode.indirect && (cleared || buf' == buf)
      ensures freed' == freed || (freed' == freed + {b} && b < MAX_BLOCKS && SlotOf(disk, orig, b) != 0)
      ensures MustGo(disk, orig, b, heapOk) ==> b in freed'
    {
      hide MetaOk, Owned, Unshared, GivenBack, Clearing, SlotOf, PutU32, GetU32;
      inode', buf', cleared, freed' := inode, buf, false, freed;
      ClearingSlot(s0, ino, inode, have, buf, freed, b);
      PtrIsIndirect(s0, ino);
      var bn := FindBlock(inode, b);
      if bn == 0 { return; }
      FreeSlot(s0, bits, ino, freed, b);
      FreeDataBlock(bn);
      if b < DIRECT {
        ClearingDirect(s0, ino, inode, have, buf, freed, b);
        inode' := inode.(direct := inode.direct[b := 0]);
      } else {
        ClearingEntry(s0, ino, inode, buf, freed, b);
        buf', cleared := PutU32(buf, 4 * (b - DIRECT), 0), true;
      }
      freed' := freed + {b};
    }

    // ---------------------------------------------------------- directories

    /** The scan shared by `lookup_in_dir` and `remove_dirent`: the first live entry
        called `name`, the block that holds it and that block's contents. */
    method FindEntry(d: nat, dir: Inode, name: Name) returns (found: bool, e: nat, bn: nat, buf: Block)
      requires Valid() && IsIno(d) && dir == InodeOf(S(), d)
      ensures found ==> e < Slots(S(), d) && DIno(S(), d, e) != 0 && DName(S(), d, e) == name
      ensures found ==>
                e / DIRENTS < MAX_BLOCKS && bn == Ptr(S(), d, e / DIRENTS) != 0 && buf == BlockAt(S(), d, e / DIRENTS)
      ensures !found && heapOk ==> forall x :: 0 <= x < Slots(S(), d) && DIno(S(), d, x) != 0 ==>
                DName(S(), d, x) != name
    {
      hide MetaOk, Inv, BlockAt, DIno, DName, EntName;
      found, e, bn, buf := false, 0, 0, ZeroBlock();
      for j := 0 to NBlocks(dir.size)
        invariant heapOk ==> Misses(S(), d, name, DIRENTS * j)
      {
        bn, buf := DirBlock(d, dir, j);
        for i := 0 to DIRENTS
          invariant heapOk ==> Misses(S(), d, name, DIRENTS * j + i)
        {
          if bn != 0 && EntIno(buf, i) != 0 && EntName(buf, i) == name {
            FoundAt(S(), d, j, i);
            return true, DIRENTS * j + i, bn, buf;
          }
          if heapOk { MissesNext(S(), d, name, j, i); }
        }
      }
    }

    /** The scan of `add_dirent`: the first free entry slot of the existing blocks. */
    method FindFree(d: nat, dir: Inode) returns (found: bool, e: nat, bn: nat, buf: Block)
      requires Valid() && IsIno(d) && dir == InodeOf(S(), d)
      ensures found ==> e < Slots(S(), d) && DIno(S(), d, e) == 0
      ensures found ==>
                e / DIRENTS < MAX_BLOCKS && bn == Ptr(S(), d, e / DIRENTS) != 0 && buf == BlockAt(S(), d, e / DIRENTS)
      ensures !found && heapOk ==> Crowded(S(), d)
    {
      hide MetaOk, Inv, BlockAt, DIno, Ptr, CrowdedTo;
      found, e, bn, buf := false, 0, 0, ZeroBlock();
      CrowdedNone(S(), d);
      for j := 0 to NBlocks(dir.size)
        invariant heapOk ==> CrowdedTo(S(), d, DIRENTS * j)
      {
        bn, buf := DirBlock(d, dir, j);
        for i := 0 to DIRENTS
          invariant heapOk ==> CrowdedTo(S(), d, DIRENTS * j + i)
        {
          if bn != 0 && EntIno(buf, i) == 0 {
            FoundAt(S(), d, j, i);
            return true, DIRENTS * j + i, bn, buf;
          }
          if heapOk { CrowdedNext(S(), d, j, i); }
        }
      }
    }

    /** Block `j` of a directory, or block number 0 if it is a hole or out of reach. */
    method DirBlock(ghost d: nat, dir: Inode, j: nat) returns (bn: nat, buf: Block)
      requires Valid() && IsIno(d) && dir == InodeOf(S(), d)
      ensures bn != 0 ==> j < MAX_BLOCKS && bn == Ptr(S(), d, j) && buf == BlockAt(S(), d, j)
      ensures bn == 0 && heapOk ==> forall i :: 0 <= i < DIRENTS ==> EntIno(BlockAt(S(), d, j), i) == 0
      ensures bn == 0 && heapOk && j < MAX_BLOCKS ==> Ptr(S(), d, j) == 0
    {
      hide MetaOk, Unshared;
      PtrIsIndirect(S(), d);
      bn := FindBlock(dir, j);
      buf := ZeroBlock();
      if bn == 0 { return; }
      PtrInRange(S(), d, j);
      var ok;
      ok, buf := ReadDataBlock(bn);
    }

    method LookupInDir(d: nat, name: Name) returns (ok: bool, ino: nat)
      requires Valid()
      ensures ok ==> IsIno(d) && InodeOf(S(), d).mode == MODE_DIR && ino != 0
      ensures ok ==> exists e :: 0 <= e < Slots(S(), d) && DIno(S(), d, e) == ino && DName(S(), d, e) == name
      ensures !ok && heapOk && IsIno(d) && InodeOf(S(), d).mode == MODE_DIR ==>
                forall x :: 0 <= x < Slots(S(), d) && DIno(S(), d, x) != 0 ==> DName(S(), d, x) != name
      ensures Starved() ==> !ok
    {
      hide Inv, BlockAt;
      ino := 0;
      var dir;
      ok, dir := ReadInode(d);
      if !ok { return; }
      if dir.mode != MODE_DIR { return false, 0; }
      ok := Kmalloc();
      if !ok { return; }
      var e, bn, buf;
      ok, e, bn, buf := FindEntry(d, dir, name);
      if ok { ino := EntIno(buf, e % DIRENTS); }
    }

    method AddDirent(d: nat, name: Name, ino: U32) returns (ok: bool, ghost e: nat)
      requires Valid() && NameOk(name)
      modifies this`bits, this`inodes, this`stale, this`sb, this`nextFree, this`disk, image, dirty
      ensures sb.freeInodes == old(sb.freeInodes)
      ensures Valid()
      ensures ok ==> IsIno(d) && OthersSame(old(S()), S(), d) && SameOwner(InodeOf(S(), d), InodeOf(old(S()), d))
                     && EntAdded(old(S()), S(), d, e, name, ino)
      ensures !ok ==> inodes == old(inodes) && SameBlocks(old(S()), S())
      ensures !ok && heapOk && IsIno(d) ==> Crowded(old(S()), d) && (DirMaxed(old(S()), d) || Full(S()))
      ensures !ok && IsIno(d) && NBlocks(InodeOf(old(S()), d).size) < DIRECT ==> S() == old(S())
      ensures ok ==> NBlocks(InodeOf(S(), d).size) <= NBlocks(InodeOf(old(S()), d).size) + 1
      ensures stale <= old(stale) + Spill(geom, d)
    {
      hide MetaOk, Inv, BlockAt, EntAdded, OthersSame, Crowded;
      e := 0;
      var dir;
      ok, dir := ReadInode(d);
      if !ok { return; }
      ok := Kmalloc();
      if !ok { return; }
      ghost var s0 := S();
      var slot, bn, buf;
      ok, slot, bn, buf := FindFree(d, dir);
      if ok {
        e := slot;
        PutInBlock(s0, d, e, name, ino);
        PtrInRange(s0, d, e / DIRENTS);
        WriteDataBlock(bn, PutEnt(buf, slot % DIRENTS, ino, name));
        assert S() == BlockSet(s0, d, e / DIRENTS, PutEnt(buf, e % DIRENTS, ino, name));
        return;
      }
      ok, e := GrowDir(d, dir, name, ino);
    }

    /** `add_dirent` when every slot is taken: one more block, entry 0 of it. */
    method GrowDir(d: nat, dir: Inode, name: Name, ino: U32) returns (ok: bool, ghost e: nat)
      requires Valid() && NameOk(name) && IsIno(d) && dir == InodeOf(S(), d)
      modifies this`bits, this`inodes, this`stale, this`sb, this`nextFree, this`disk, image, dirty
      ensures sb.freeInodes == old(sb.freeInodes)
      ensures Valid()
      ensures ok ==> OthersSame(old(S()), S(), d) && SameOwner(InodeOf(S(), d), InodeOf(old(S()), d))
                     && EntAdded(old(S()), S(), d, e, name, ino)
      ensures !ok ==> inodes == old(inodes) && SameBlocks(old(S()), S())
      ensures !ok && heapOk ==> DirMaxed(old(S()), d) || Full(S())
      ensures !ok && NBlocks(dir.size) < DIRECT ==> S() == old(S())
      ensures ok ==> NBlocks(InodeOf(S(), d).size) == NBlocks(dir.size) + 1
      ensures stale <= old(stale) + Spill(geom, d)
    {
      hide MetaOk, Inv, BlockAt, EntAdded, OthersSame, Slots, NBlocks, PutEnt, Spill, Grew, SameOwner;
      ghost var s0 := S();
      var n := NBlocks(dir.size);
      e := DIRENTS * n;
      assert View(s0, d, dir) == s0;
      var inode, bn := InodeGetBlock(d, dir, n);
      ok := bn != 0;
      if bn == 0 { assert View(S(), d, dir) == S(); return; }
      OneMoreBlock(n);
      ghost var v := View(S(), d, inode);
      GrowWithEnt(s0, v, d, name, ino);
      PtrInRange(v, d, n);
      WriteDataBlock(bn, PutEnt(ZeroBlock(), 0, ino, name));
      ghost var w := BlockSet(v, d, n, PutEnt(ZeroBlock(), 0, ino, name));
      assert w == View(S(), d, inode);
      inode := inode.(size := (n + 1) * BLOCK_SIZE);
      WriteInode(d, inode);
      assert S() == View(w, d, inode);
    }

    method RemoveDirent(d: nat, name: Name) returns (ok: bool, ghost e: nat)
      requires Valid()
      modifies this`disk
      ensures Valid()
      ensures ok ==> IsIno(d) && OthersSame(old(S()), S(), d) && inodes == old(inodes)
      ensures ok ==> e < Slots(old(S()), d) && DIno(old(S()), d, e) != 0 && DName(old(S()), d, e) == name
                     && EntRemoved(old(S()), S(), d, e)
      ensures !ok ==> S() == old(S())
      ensures !ok && heapOk && IsIno(d) ==>
                forall x :: 0 <= x < Slots(S(), d) && DIno(S(), d, x) != 0 ==> DName(S(), d, x) != name
      ensures Starved() ==> !ok
    {
      hide MetaOk, Inv, BlockAt;
      e := 0;
      var dir;
      ok, dir := ReadInode(d);
      if !ok { return; }
      ok := Kmalloc();
      if !ok { return; }
      ghost var s0 := S();
      var slot, bn, buf;
      ok, slot, bn, buf := FindEntry(d, dir, name);
      if !ok { return; }
      e := slot;
      ClearInBlock(s0, d, slot);
      PtrInRange(s0, d, slot / DIRENTS);
      WriteDataBlock(bn, ClearEnt(buf, slot % DIRENTS));
      assert S() == BlockSet(s0, d, slot / DIRENTS, ClearEnt(buf, slot % DIRENTS));
    }

    /** The next live entry from `index` on; `next` is the cursor after it. */
    method Readdir(d: nat, index: nat) returns (ok: bool, next: nat, ino: nat, name: Name)
      requires Valid()
      ensures ok ==> IsIno(d) && index < next <= Slots(S(), d)
      ensures ok ==> ino == DIno(S(), d, next - 1) != 0 && name == DName(S(), d, next - 1)
      ensures ok && heapOk ==> forall x :: index <= x < next - 1 ==> DIno(S(), d, x) == 0
      ensures !ok && heapOk && IsIno(d) ==> forall x :: index <= x < Slots(S(), d) ==> DIno(S(), d, x) == 0
      ensures Starved() ==> !ok
    {
      hide MetaOk, Inv, BlockAt, EntName;
      next, ino, name := index, 0, [];
      var dir;
      ok, dir := ReadInode(d);
      if !ok { return; }
      var total := NBlocks(dir.size) * DIRENTS;
      ok := Kmalloc();
      if !ok { return; }
      while next < total
        invariant index <= next
        invariant heapOk ==> forall x :: index <= x < next ==> DIno(S(), d, x) == 0
      {
        var j, i := next / DIRENTS, next % DIRENTS;
        next := next + 1;
        var bn, buf := DirBlock(d, dir, j);
        if bn != 0 && EntIno(buf, i) != 0 {
          return true, next, EntIno(buf, i), EntName(buf, i);
        }
      }
      ok := false;
    }

    /** How many entries of `d`, as `readdir` lists them, are not dot entries. */
    method CountExtra(d: nat) returns (extra: nat)
      requires Valid() && IsIno(d)
      ensures heapOk ==>
                (extra == 0 <==> forall x :: 0 <= x < Slots(S(), d) && DIno(S(), d, x) != 0 ==>
                  !Plain(DName(S(), d, x)))
      ensures Starved() ==> extra == 0
    {
      hide MetaOk, Inv, DIno, DName;
      extra := 0;
      var ok, next, ino, name := Readdir(d, 0);
      ghost var seen := 0;
      while ok
        invariant ok ==> seen < next <= Slots(S(), d)
        invariant ok ==> ino == DIno(S(), d, next - 1) != 0 && name == DName(S(), d, next - 1)
        invariant heapOk && ok ==> forall x :: seen <= x < next - 1 ==> DIno(S(), d, x) == 0
        invariant heapOk && !ok ==> forall x :: seen <= x < Slots(S(), d) ==> DIno(S(), d, x) == 0
        invariant heapOk ==>
                    (extra == 0 <==> forall x :: 0 <= x < seen && DIno(S(), d, x) != 0 ==> !Plain(DName(S(), d, x)))
        invariant 0 <= seen <= Slots(S(), d) && (Starved() ==> !ok && extra == 0)
        decreases Slots(S(), d) - seen, ok
      {
        if name != DOT && name != DOTDOT { extra := extra + 1; }
        seen := next;
        ok, next, ino, name := Readdir(d, next);
      }
    }

    method AllocInode() returns (ino: nat)
      requires Valid()
      modifies this`sb, image, dirty
      ensures sb.freeInodes == if ino == 0 then old(sb.freeInodes) else Less(old(sb.freeInodes))
      ensures Valid()
      ensures ino != 0 ==> IsIno(ino) && InodeOf(S(), ino).mode == MODE_FREE
      ensures ino == 0 ==> forall i :: IsIno(i) ==> InodeOf(S(), i).mode != MODE_FREE
    {
      hide MetaOk, Inv;
      ino := 1;
      while ino <= INODE_COUNT
        invariant 1 <= ino <= INODE_COUNT + 1 && Valid() && sb.freeInodes == old(sb.freeInodes)
        invariant forall i :: 1 <= i < ino ==> InodeOf(S(), i).mode != MODE_FREE
      {
        var ok, inode := ReadInode(ino);
        if inode.mode == MODE_FREE {
          SetCounters(sb.freeBlocks, Less(sb.freeInodes));
          return;
        }
        ino := ino + 1;
      }
      ino := 0;
    }

    method FreeInodeSlot(ino: nat)
      requires MetaOk() && Counted() && IsIno(ino)
      modifies this`sb, this`inodes, this`stale, image, dirty
      ensures sb.freeInodes == More(old(sb.freeInodes))
      ensures MetaOk() && Counted() && inodes == old(inodes)[ino - 1 := FreeInode()]
      ensures stale <= old(stale) + Spill(geom, ino)
    {
      hide MetaOk;
      WriteInode(ino, FreeInode());
      SetCounters(sb.freeBlocks, More(sb.freeInodes));
    }

    // ------------------------------------------------------ create and unlink

    /** The check for an existing name at the head of create; `scanOk` says whether its
        `kmalloc`s succeed. */
    method Taken(parent: nat, name: Name, scanOk: bool, ghost t: Tree) returns (found: bool)
      requires Valid()
      modifies this`heapOk
      ensures heapOk == old(heapOk)
      ensures Depicts(S(), t) && found ==> parent in t.dirs && To(t, parent, name) != 0
      ensures Depicts(S(), t) && scanOk && !found ==> To(t, parent, name) == 0
      ensures starved && !scanOk ==> !found
    {
      hide MetaOk, Inv, Depicts, Represents, DIno, DName, To;
      var rest := heapOk;
      SetHeap(scanOk);
      ghost var x;
      found, x := LookupInDir(parent, name);
      SetHeap(rest);
      if Depicts(S(), t) { FoundMeans(S(), t, parent, name, found, scanOk); }
    }

    /** `lufirafs_create`. `scanOk` says whether the `kmalloc`s of the check for an existing
        name succeed, `heapOk` whether all others do; `t` is the tree before. */
    method Create(parent: nat, name: Name, mode: U32, uid: U32, gid: U32, perm: U32, scanOk: bool, ghost t: Tree)
      returns (r: int, ino: nat)
      requires Valid() && (mode == MODE_FILE || mode == MODE_DIR) && (name == [] || NameOk(name))
      requires 0 < parent < 0x1_0000_0000
      modifies this`heapOk, this`bits, this`inodes, this`stale, this`sb, this`nextFree, this`disk, image, dirty
      ensures sb.freeInodes == if r == 0 then Less(old(sb.freeInodes))
                               else if r == -3 then More(Less(old(sb.freeInodes))) else old(sb.freeInodes)
      ensures Valid() && heapOk == old(heapOk)
      ensures r == 0 || r == -1 || r == -2 || r == -3
      ensures r == -1 || r == -2 ==> S() == old(S())
      ensures starved && !scanOk && name != [] ==> r != -1
      ensures r == 0 ==> Kept(old(S()), S(), {ino, parent})
      ensures r == -3 ==> Kept(old(S()), S(), {ino})
      ensures r == -2 ==> forall i :: IsIno(i) ==> InodeOf(S(), i).mode != MODE_FREE
      ensures r == -3 && heapOk && IsIno(parent) ==> DirMaxed(old(S()), parent) || Full(S())
      ensures r == -3 && heapOk && mode == MODE_FILE && IsIno(parent) && InodeOf(old(S()), parent).mode != MODE_FREE ==>
                !Spare(old(S()), parent)
      ensures r == 0 ==> IsIno(parent)
      ensures r == -3 ==> IsIno(ino) && InodeOf(old(S()), ino).mode == MODE_FREE
      ensures r == 0 ==> IsIno(ino) && Born(InodeOf(S(), ino), mode, uid, gid, perm)
      ensures r == 0 ==> InodeOf(old(S()), ino).mode == MODE_FREE
      ensures r == 0 && perm == (if mode == MODE_DIR then DIR_PERM else FILE_PERM) ==>
                SameOwner(InodeOf(S(), ino), NewRecord(mode == MODE_DIR, uid, gid))
      ensures r == 0 && mode == MODE_FILE && perm == FILE_PERM && ino != parent ==>
                InodeOf(S(), ino) == NewRecord(false, uid, gid)
      ensures r == 0 && parent != ino ==> SameOwner(InodeOf(S(), parent), InodeOf(old(S()), parent))
      ensures r == -3 ==> InodeOf(S(), ino) == FreeInode()
      ensures r == 0 && mode == MODE_FILE && ino != parent ==> InodeOf(S(), ino).size == 0 && Blank(S(), ino)
      ensures Depicts(old(S()), t) ==> CreateMeans(old(S()), S(), t, parent, name, ino, mode == MODE_DIR, scanOk, r)
      ensures stale <= old(stale) + Spill(geom, ino) + Spill(geom, parent)
      ensures IsIno(parent) && InodeOf(old(S()), parent).mode == MODE_DIR && Tidy(old(S())) ==> Tidy(S())
    {
      hide MetaOk, Inv, OthersSame, Kept, Depicts, EntAdded, Represents, BlockAt, To, Live, Slots, Created, Tidy,
        Blank, TailZero, Broken;
      hide Full, DirMaxed, Spill, WellFormed, NameOk, Spare;
      r, ino := -1, 0;
      if name == [] { return; }
      ghost var s0 := S();
      var found := Taken(parent, name, scanOk, t);
      if found { return; }
      ino := MakeInode(mode, uid, gid, perm);
      if ino == 0 { if Depicts(s0, t) { NoneFree(s0, t); } r := -2; return; }
      if Depicts(s0, t) { FreeIsNotLive(s0, t, ino); }
      var ok := LinkNew(parent, name, ino, mode, s0, t);
      r := if ok then 0 else -3;
    }

    /** A free record becomes that of an empty file or directory. */
    method MakeInode(mode: U32, uid: U32, gid: U32, perm: U32) returns (ino: nat)
      requires Valid()
      modifies this`sb, this`inodes, this`stale, image, dirty
      ensures Valid() && sb.freeInodes == if ino == 0 then old(sb.freeInodes) else Less(old(sb.freeInodes))
      ensures ino == 0 ==> S() == old(S()) && forall i :: IsIno(i) ==> InodeOf(S(), i).mode != MODE_FREE
      ensures ino != 0 ==> IsIno(ino) && InodeOf(old(S()), ino).mode == MODE_FREE && OthersSame(old(S()), S(), ino)
      ensures ino != 0 ==> Born(InodeOf(S(), ino), mode, uid, gid, perm) && InodeOf(S(), ino).size == 0
      ensures ino != 0 ==> Blank(S(), ino)
      ensures ino != 0 && mode == MODE_FILE && perm == FILE_PERM ==> InodeOf(S(), ino) == NewRecord(false, uid, gid)
      ensures stale <= old(stale) + Spill(geom, ino)
    {
      hide MetaOk, Inv, OthersSame, Blank, Spill;
      ghost var s0 := S();
      ino := AllocInode();
      if ino == 0 { return; }
      var inode := InodeRec(mode, 0, if mode == MODE_DIR then 2 else 1, seq(DIRECT, _ => 0), 0, uid, gid, perm);
      FreshInode(s0, ino, inode);
      WriteInode(ino, inode);
      assert S() == View(s0, ino, inode);
    }

    /** The second half of create, on a new record: dot entries, then the name. */
    method LinkNew(parent: nat, name: Name, ino: nat, mode: U32, ghost s0: State, ghost t: Tree) returns (ok: bool)
      requires Valid() && NameOk(name) && IsIno(ino) && 0 < parent < 0x1_0000_0000 && Shape(s0)
      requires (mode == MODE_FILE || mode == MODE_DIR) && InodeOf(S(), ino).mode == mode && InodeOf(S(), ino).size == 0
      requires Blank(S(), ino) && OthersSame(s0, S(), ino) && InodeOf(s0, ino).mode == MODE_FREE
      requires Depicts(s0, t) ==> !Live(t, ino)
      modifies this`bits, this`inodes, this`stale, this`sb, this`nextFree, this`disk, image, dirty
      ensures sb.freeInodes == if ok then old(sb.freeInodes) else More(old(sb.freeInodes))
      ensures Valid() && Kept(s0, S(), if ok then {ino, parent} else {ino})
      ensures !ok && heapOk && IsIno(parent) ==> DirMaxed(s0, parent) || Full(S())
      ensures !ok && heapOk && mode == MODE_FILE && IsIno(parent) && parent != ino ==> !Spare(s0, parent)
      ensures ok ==> IsIno(parent) && SameOwner(InodeOf(S(), ino), InodeOf(old(S()), ino))
      ensures ok && ino != parent ==> SameOwner(InodeOf(S(), parent), InodeOf(s0, parent))
      ensures ok && mode == MODE_FILE && ino != parent ==> InodeOf(S(), ino) == InodeOf(old(S()), ino)
      ensures !ok ==> InodeOf(S(), ino) == FreeInode()
      ensures ok && mode == MODE_FILE && ino != parent ==> InodeOf(S(), ino).size == 0 && Blank(S(), ino)
      ensures Depicts(s0, t) && !ok ==> Depicts(S(), t)
      ensures Depicts(s0, t) && ok ==>
                if parent in t.dirs && To(t, parent, name) == 0
                  then Depicts(S(), Created(t, parent, name, ino, mode == MODE_DIR))
                else Broken(S())
      ensures stale <= old(stale) + Spill(geom, ino) + Spill(geom, parent)
      ensures IsIno(parent) && InodeOf(s0, parent).mode == MODE_DIR && Tidy(s0) ==> Tidy(S())
    {
      hide MetaOk, Inv, OthersSame, Kept, Depicts, EntAdded, Represents, BlockAt, To, Live, Slots, Created, Tidy,
        Blank, TailZero, Broken, Spill, Spare;
      ghost var made := InodeOf(S(), ino);
      ok := true;
      if mode == MODE_DIR { ok := AddDots(ino, parent, s0); }
      if ok { ok := LinkName(parent, name, ino, mode == MODE_DIR, made, s0, t); }
      if !ok { AbandonInode(ino, s0, t); }
    }

    /** The last step of create: the name of the new inode `ino` is added to its parent. */
    method LinkName(parent: nat, name: Name, ino: nat, ghost isDir: bool, ghost made: Inode, ghost s0: State,
                    ghost t: Tree)
      returns (ok: bool)
      requires Valid() && NameOk(name) && IsIno(ino) && 0 < parent < 0x1_0000_0000 && Shape(s0)
      requires OthersSame(s0, S(), ino) && InodeOf(s0, ino).mode == MODE_FREE && SameOwner(InodeOf(S(), ino), made)
      requires made.mode == if isDir then MODE_DIR else MODE_FILE
      requires NBlocks(InodeOf(S(), ino).size) <= 2 && (isDir ==> Represents(S(), ino, Dots(ino, parent)))
      requires !isDir ==> InodeOf(S(), ino) == made && made.size == 0 && Blank(S(), ino)
      requires Depicts(s0, t) ==> !Live(t, ino)
      modifies this`bits, this`inodes, this`stale, this`sb, this`nextFree, this`disk, image, dirty
      ensures Valid() && sb.freeInodes == old(sb.freeInodes)
      ensures stale <= old(stale) + Spill(geom, parent)
      ensures !ok ==> OthersSame(s0, S(), ino)
      ensures !ok && heapOk && IsIno(parent) ==> DirMaxed(s0, parent) || Full(S())
      ensures !ok && heapOk && !isDir && IsIno(parent) && parent != ino ==> !Spare(s0, parent)
      ensures ok ==> IsIno(parent) && Kept(s0, S(), {ino, parent}) && SameOwner(InodeOf(S(), ino), made)
      ensures ok && ino != parent ==> SameOwner(InodeOf(S(), parent), InodeOf(s0, parent))
      ensures ok && ino != parent && !isDir ==> InodeOf(S(), ino) == made && Blank(S(), ino)
      ensures Depicts(s0, t) && ok ==>
                if parent in t.dirs && To(t, parent, name) == 0
                  then Depicts(S(), Created(t, parent, name, ino, isDir))
                else Broken(S())
      ensures ok && InodeOf(s0, parent).mode == MODE_DIR && Tidy(s0) ==> Tidy(S())
    {
      hide MetaOk, Inv, OthersSame, Kept, Depicts, EntAdded, Represents, BlockAt, To, Live, Slots, Created, Tidy,
        Blank, TailZero, Broken, Spill, Spare;
      ghost var s3, e := S(), 0;
      if !isDir { BlankHarmless(s3, ino); }
      ok, e := AddDirent(parent, name, ino);
      if ok {
        Linked(s0, s3, S(), made, ino, parent);
        if Depicts(s0, t) { CreateOutcome(s0, s3, S(), t, parent, name, ino, e, isDir); }
      } else {
        SameModes(s0, s3, ino);
        if IsIno(parent) && parent != ino && Spare(s0, parent) {
          SpareKept(s0, s3, ino, parent);
          SpareRoom(s3, parent);
        }
        SameIsOthersSame(s3, S(), ino);
        OthersTrans(s0, s3, S(), ino);
        assert IsIno(parent) && parent != ino ==> InodeOf(s3, parent) == InodeOf(s0, parent);
      }
    }

    /** The failure exit of `lufirafs_create`: the inode is given back; blocks it
        may already own stay marked used. */
    method AbandonInode(ino: nat, ghost s0: State, ghost t: Tree)
      requires Valid() && IsIno(ino) && Shape(s0) && OthersSame(s0, S(), ino) && InodeOf(s0, ino).mode == MODE_FREE
      requires Depicts(s0, t) ==> !Live(t, ino)
      modifies this`sb, this`inodes, this`stale, image, dirty
      ensures sb.freeInodes == More(old(sb.freeInodes))
      ensures Valid() && Kept(s0, S(), {ino}) && (Depicts(s0, t) ==> Depicts(S(), t))
      ensures InodeOf(S(), ino) == FreeInode()
      ensures Tidy(s0) ==> Tidy(S())
      ensures stale <= old(stale) + Spill(geom, ino)
    {
      hide MetaOk, Inv, OthersSame, Kept, Depicts, Live, Tidy, Blank, Spill;
      ghost var s := S();
      FreeInodeSlot(ino);
      FreshInode(s, ino, FreeInode());
      assert S() == View(s, ino, FreeInode());
      AbandonedKept(s0, s, S(), ino);
      if Depicts(s0, t) { CreateUndone(s0, s, t, ino); }
    }

    /** The dot entries of a new directory. */
    method AddDots(ino: nat, parent: U32, ghost s0: State) returns (ok: bool)
      requires Valid() && IsIno(ino) && Shape(s0) && OthersSame(s0, S(), ino)
      requires InodeOf(S(), ino).size == 0 && InodeOf(S(), ino).mode == MODE_DIR && parent != 0
      modifies this`bits, this`inodes, this`stale, this`sb, this`nextFree, this`disk, image, dirty
      ensures sb.freeInodes == old(sb.freeInodes)
      ensures Valid() && OthersSame(s0, S(), ino)
      ensures SameOwner(InodeOf(S(), ino), InodeOf(old(S()), ino))
      ensures ok ==> Represents(S(), ino, Dots(ino, parent))
      ensures !ok && heapOk ==> S() == old(S()) && Full(S())
      ensures ok ==> NBlocks(InodeOf(S(), ino).size) <= 2 && Spare(S(), ino)
      ensures stale <= old(stale) + Spill(geom, ino)
    {
      hide MetaOk, Inv, OthersSame, EntAdded, Represents, BlockAt, Crowded, Spill;
      DotNames();
      ghost var s1, e := S(), 0;
      EmptyDir(s1, ino);
      assert NBlocks(InodeOf(s1, ino).size) == 0;
      ok, e := AddDirent(ino, DOT, ino);
      ghost var s2 := S();
      if !ok { SameIsOthersSame(s1, s2, ino); }
      OthersTrans(s0, s1, s2, ino);
      if !ok { return; }
      AddedRepresents(s1, s2, ino, e, DOT, ino, map[]);
      RoomLeft(s1, s2, ino, e, DOT, ino);
      ghost var f := e;
      ok, e := AddDirent(ino, DOTDOT, parent);
      if !ok { SameIsOthersSame(s2, S(), ino); }
      OthersTrans(s0, s2, S(), ino);
      if ok {
        AddedRepresents(s2, S(), ino, e, DOTDOT, parent, map[DOT := ino]);
        DotsSpare(s1, s2, S(), ino, f, e, DOT, DOTDOT, ino, parent);
        assert map[DOT := ino][DOTDOT := parent] == Dots(ino, parent);
      }
    }

    /** The blocks of a file and its indirect block are given back, as `lufirafs_unlink` does. */
    method FreeBlocks(ghost ino: nat, inode: Inode) returns (ghost freed: set<nat>)
      requires Valid() && IsIno(ino) && inode == InodeOf(S(), ino)
      modifies this`bits, this`stale, this`sb, image, dirty
      ensures sb.freeInodes == old(sb.freeInodes)
      ensures MetaOk() && Counted() && stale <= old(stale)
      ensures GivenBack(old(S()), bits, ino, freed)
      ensures Returned(old(S()), bits, ino, 0, NBlocks(inode.size), true, heapOk)
    {
      hide MetaOk, Owned, Unshared, SlotOf, FreedOnly, FreedAll, NBlocks, Returned, GivenBack;
      ghost var s0 := S();
      PtrIsIndirect(s0, ino);
      freed := FreeLoop(ino, inode);
      ghost var slots := freed;
      FreedBelow(disk, inode, freed, 0, NBlocks(inode.size));
      if inode.indirect != 0 {
        FreeSlot(s0, bits, ino, freed, IND);
        FreeDataBlock(inode.indirect);
        freed := freed + {IND};
      }
      AllReturned(s0, bits, ino, slots, freed, 0, NBlocks(inode.size), true, heapOk);
    }

    /** The loop of that. */
    method FreeLoop(ghost ino: nat, inode: Inode) returns (ghost freed: set<nat>)
      requires Valid() && IsIno(ino) && inode == InodeOf(S(), ino)
      modifies this`bits, this`stale, this`sb, image, dirty
      ensures MetaOk() && Counted() && stale <= old(stale) && sb.freeInodes == old(sb.freeInodes)
      ensures GivenBack(old(S()), bits, ino, freed)
      ensures FreedOnly(disk, inode, freed, 0, NBlocks(inode.size))
      ensures FreedAll(disk, inode, freed, 0, NBlocks(inode.size), heapOk)
    {
      hide MetaOk, Owned, Unshared, SlotOf, FreedOnly, FreedAll, NBlocks, GivenBack;
      ghost var s0 := S();
      PtrIsIndirect(s0, ino);
      freed := {};
      GivenBackNone(s0, ino);
      FreedNone(disk, inode, 0, heapOk);
      for b := 0 to NBlocks(inode.size)
        invariant MetaOk() && Counted() && stale <= old(stale) && sb.freeInodes == old(sb.freeInodes)
        invariant GivenBack(s0, bits, ino, freed)
        invariant FreedOnly(disk, inode, freed, 0, b) && FreedAll(disk, inode, freed, 0, b, heapOk)
      {
        FreedBefore(disk, inode, freed, 0, b);
        ghost var was := freed;
        var bn := FindBlock(inode, b);
        if bn != 0 {
          FreeSlot(s0, bits, ino, freed, b);
          FreeDataBlock(bn);
          freed := freed + {b};
        }
        FreedNext(disk, inode, was, freed, 0, b, heapOk);
      }
    }

    /** The emptiness check of unlink; `scanOk` says whether its `kmalloc`s succeed. */
    method CountScan(d: nat, scanOk: bool, ghost t: Tree) returns (extra: nat)
      requires Valid() && IsIno(d)
      modifies this`heapOk
      ensures heapOk == old(heapOk)
      ensures scanOk && Depicts(S(), t) && d in t.dirs ==> (extra == 0 <==> Empty(t, d))
      ensures starved && !scanOk ==> extra == 0
    {
      hide MetaOk, Inv, Depicts, DIno, DName, Empty;
      var rest := heapOk;
      SetHeap(scanOk);
      extra := CountExtra(d);
      SetHeap(rest);
      if Depicts(S(), t) && d in t.dirs { ExtraMeans(S(), t, d); }
    }

    /** `lufirafs_unlink`: `scanOk` says whether the `kmalloc`s of the emptiness check and of
        the removal of the entry succeed, `heapOk` whether all others do; `gone` is whether
        the entry was removed. */
    method Unlink(parent: nat, name: Name, scanOk: bool, ghost t: Tree)
      returns (r: int, ghost ino: nat, ghost gone: bool)
      requires Valid()
      modifies this`heapOk, this`bits, this`inodes, this`stale, this`sb, this`nextFree, this`disk, image, dirty
      ensures sb.freeInodes == if r == 0 then More(old(sb.freeInodes)) else old(sb.freeInodes)
      ensures Valid() && heapOk == old(heapOk)
      ensures r == 0 || r == -1 || r == -2 || r == -3
      ensures r != 0 ==> S() == old(S())
      ensures starved && !scanOk ==> r != -2 && !gone
      ensures r == 0 ==> IsIno(ino) && inodes == old(inodes)[ino - 1 := FreeInode()]
      ensures r == 0 && !gone && ino != parent ==> Kept(old(S()), S(), {ino})
      ensures forall y :: heapOk && name != [] && OnlyLeads(old(S()), parent, name, y) ==>
                ino == y && (IsIno(y) && y != ROOT && InodeOf(old(S()), y).mode != MODE_DIR ==> r == 0)
      ensures r == 0 ==> Kept(old(S()), S(), {ino, parent})
      ensures r == 0 ==> Emptied(old(S()), bits, ino, heapOk)
      ensures r == 0 && heapOk ==> sb.freeBlocks == old(sb.freeBlocks) + |AllHeld(old(S()), ino)|
      ensures Depicts(old(S()), t) ==> UnlinkMeans(old(S()), S(), t, parent, name, ino, gone, scanOk, heapOk, r)
      ensures Tidy(old(S())) ==> Tidy(S())
      ensures stale <= old(stale) + Spill(geom, ino)
    {
      hide MetaOk, Inv, OthersSame, Kept, Depicts, Represents, BlockAt, To, Live, Removed, Empty, DIno, DName, Tidy,
        Blank, TailZero, Broken, Spill, OnlyLeads, Emptied, AllHeld;
      r, ino, gone := -1, 0, false;
      if name == [] { return; }
      ghost var s0 := S();
      var ok, x := LookupInDir(parent, name);
      if Depicts(s0, t) { FoundMeans(s0, t, parent, name, ok, heapOk); }
      forall y | heapOk && OnlyLeads(s0, parent, name, y) ensures ok && x == y {
        OnlyFound(s0, parent, name, y, ok, x);
      }
      ino := x;
      if !ok { return; }
      if Depicts(s0, t) { FoundIs(s0, t, parent, name, x); }
      if x == ROOT { r := -3; return; }
      var inode;
      ok, inode := ReadInode(x);
      if !ok { return; }
      if inode.mode == MODE_DIR {
        var extra := CountScan(x, scanOk, t);
        if extra > 0 { r := -2; return; }
      }
      gone := Release(x, inode, parent, name, scanOk, t);
      EmptiedCount(s0, bits, x, heapOk);
      r := 0;
    }

    /** The end of unlink: the target's blocks and inode are freed, then its entry. */
    method Release(x: nat, inode: Inode, parent: nat, name: Name, scanOk: bool, ghost t: Tree)
      returns (ghost gone: bool)
      requires Valid() && IsIno(x) && x != ROOT && inode == inodes[x - 1] && IsIno(parent)
      requires InodeOf(S(), parent).mode == MODE_DIR
      requires Depicts(S(), t) ==> parent in t.dirs && To(t, parent, name) == x
      modifies this`heapOk, this`bits, this`inodes, this`stale, this`sb, this`nextFree, this`disk, image, dirty
      ensures sb.freeInodes == More(old(sb.freeInodes))
      ensures Valid() && heapOk == old(heapOk) && Kept(old(S()), S(), {x, parent})
      ensures Tidy(old(S())) ==> Tidy(S())
      ensures stale <= old(stale) + Spill(geom, x)
      ensures Depicts(old(S()), t) ==>
                if Plain(name) && Empty(t, x) && gone then Depicts(S(), Removed(t, parent, name)) else Broken(S())
      ensures Depicts(old(S()), t) && Plain(name) && scanOk ==> gone
      ensures starved && !scanOk ==> !gone
      ensures inodes == old(inodes)[x - 1 := FreeInode()]
      ensures !gone && x != parent ==> Kept(old(S()), S(), {x})
      ensures Emptied(old(S()), bits, x, heapOk)
    {
      hide Emptied, MetaOk, Inv, OthersSame, Kept, Depicts, EntRemoved, Represents, BlockAt, To, Live, Removed, Empty,
        DIno, DName, Tidy, Blank, TailZero, Broken, Spill;
      ghost var s0 := S();
      FreeTarget(x, inode);
      ghost var s1, e := S(), 0;
      gone, e := DropEntry(parent, name, scanOk);
      Released(s0, s1, S(), x, parent, gone);
      if Depicts(s0, t) {
        if Plain(name) { EntryTarget(s0, t, parent, name); StillListed(s0, s1, t, parent, name); }
        UnlinkOutcome(s0, s1, S(), t, parent, name, gone, e);
      }
    }

    /** The blocks of the target and its inode are given back. */
    method FreeTarget(x: nat, inode: Inode)
      requires Valid() && IsIno(x) && inode == inodes[x - 1]
      modifies this`bits, this`inodes, this`stale, this`sb, image, dirty
      ensures Valid() && OthersSame(old(S()), S(), x) && Blank(S(), x)
      ensures inodes == old(inodes)[x - 1 := FreeInode()] && sb.freeInodes == More(old(sb.freeInodes))
      ensures stale <= old(stale) + Spill(geom, x)
      ensures Emptied(old(S()), bits, x, heapOk)
    {
      hide MetaOk, Inv, OthersSame, Blank, Spill, GivenBack, Returned;
      ghost var s0 := S();
      ghost var freed := FreeBlocks(x, inode);
      FreeInodeSlot(x);
      GaveUpAll(s0, S(), x, freed);
    }

    /** `remove_dirent` with the memory that the scans have. */
    method DropEntry(parent: nat, name: Name, scanOk: bool) returns (ok: bool, ghost e: nat)
      requires Valid() && IsIno(parent)
      modifies this`heapOk, this`disk
      ensures Valid() && heapOk == old(heapOk) && OthersSame(old(S()), S(), parent)
      ensures ok ==> e < Slots(old(S()), parent) && DIno(old(S()), parent, e) != 0 && DName(old(S()), parent, e) == name
                     && EntRemoved(old(S()), S(), parent, e)
      ensures !ok ==> S() == old(S())
      ensures !ok && scanOk ==> !Listed(S(), parent, name)
      ensures starved && !scanOk ==> !ok
    {
      hide MetaOk, Inv, OthersSame, EntRemoved, DIno, DName;
      ghost var s := S();
      var rest := heapOk;
      SetHeap(scanOk);
      ok, e := RemoveDirent(parent, name);
      SetHeap(rest);
      if !ok { SameIsOthersSame(s, S(), parent); }
    }

    // ---------------------------------------------------------------- paths

    /** `lookup_in_dir` in terms of the tree. */
    method LookupEntry(d: nat, name: Name, ghost t: Tree) returns (ok: bool, ino: nat)
      requires Valid() && (heapOk ==> Depicts(S(), t))
      ensures ok ==> ino != 0
      ensures heapOk ==> ok == (To(t, d, name) != 0) && (ok ==> ino == To(t, d, name))
    {
      hide MetaOk, Inv, WellFormed, Represents, DIno, DName;
      ok, ino := LookupInDir(d, name);
      if heapOk && d in t.dirs { ScanMeans(S(), t, d, name); assert Live(t, d); }
    }

    /** `lufirafs_lookup`: an absolute path starts at the root, any other at `start`. */
    method Lookup(start: nat, path: seq<Byte>, ghost t: Tree) returns (ok: bool, ino: nat)
      requires Valid() && start != 0 && (heapOk ==> Depicts(S(), t))
      ensures heapOk ==> ok == (Walk(t, Base(start, path), Components(path, 0)) != 0)
      ensures heapOk && ok ==> ino == Walk(t, Base(start, path), Components(path, 0))
    {
      hide MetaOk, Inv, Depicts, To, CompLen, SkipSlashes, Components;
      ino := if path != [] && path[0] == SLASH then ROOT else start;
      var p := 0;
      if path != [] && path[0] == SLASH {
        p := 1;
        FirstSlash(path);
      }
      ComponentsEnd(path);
      ghost var goal := Walk(t, ino, Components(path, 0));
      while p < |path|
        invariant 0 <= p <= |path| && ino != 0
        invariant heapOk ==> Walk(t, ino, Components(path, p)) == goal
        decreases |path| - p
      {
        var n := CompLen(path, p, MAX_NAME);
        var component := path[p..p + n];
        ComponentsStep(path, p);
        p := SkipSlashes(path, p + n);
        if n == 0 { assert [] + Components(path, p) == Components(path, p); continue; }
        assert ([component] + Components(path, p))[1..] == Components(path, p);
        ok, ino := LookupEntry(ino, component, t);
        if !ok { return; }
      }
      ok := true;
    }

    /** The length of `path` without trailing slashes, and its last slash before that. */
    static method LastSlash(path: seq<Byte>) returns (len: nat, slash: int)
      requires path != []
      ensures LastPart(path, len, slash)
    {
      len := |path|;
      while len > 1 && path[len - 1] == SLASH
        invariant 1 <= len <= |path|
        invariant forall k :: len <= k < |path| ==> path[k] == SLASH
      {
        len := len - 1;
      }
      slash := -1;
      for i := 0 to len
        invariant -1 <= slash < i
        invariant slash != -1 ==> path[slash] == SLASH
        invariant forall k :: slash < k < i ==> path[k] != SLASH
      {
        if path[i] == SLASH { slash := i; }
      }
    }

    /** `lufirafs_resolve_parent`: the inode of the directory part and the last name. */
    method ResolveParent(start: nat, path: seq<Byte>, ghost t: Tree)
      returns (ok: bool, parent: nat, name: Name, ghost cut: (nat, int))
      requires Valid() && start != 0 && (heapOk ==> Depicts(S(), t))
      requires forall k :: 0 <= k < |path| ==> path[k] != 0
      ensures ok ==> NameOk(name)
      ensures if path == [] then !ok else LastPart(path, cut.0, cut.1)
      ensures heapOk && path != [] ==> (ok <==> Resolvable(t, start, path, cut.0, cut.1))
      ensures ok ==> cut.0 - (cut.1 + 1) <= MAX_NAME && name == NamePart(path, cut.0, cut.1)
      ensures ok && cut.1 <= 0 ==> parent == if cut.1 == 0 then ROOT else start
      ensures heapOk && ok ==> parent == Walk(t, Base(start, path), Components(DirPart(path, cut.0, cut.1), 0))
      ensures heapOk && ok ==> To(t, parent, name) == Walk(t, Base(start, path), Components(path, 0))
    {
      hide MetaOk, Inv, Depicts, To, Components, Walk, Live, NameOk, Base, LastPart, NamePart, DirPart;
      ok, parent, name, cut := false, 0, [], (0, 0);
      if path == [] { return; }
      var fits, len, slash;
      fits, len, slash, name := SplitLast(path);
      cut := (len, slash);
      if !fits { return; }
      LastName(t, start, path, len, slash);
      if heapOk { NoZero(S(), t); }
      if slash == -1 { ok, parent := true, start; return; }
      if slash == 0 { ok, parent := true, ROOT; return; }
      if slash >= 256 { return; }
      ok, parent := Lookup(start, DirPart(path, len, slash), t);
    }

    /** The last name of a path, if it fits an entry. */
    static method SplitLast(path: seq<Byte>) returns (fits: bool, len: nat, slash: int, name: Name)
      requires path != [] && forall k :: 0 <= k < |path| ==> path[k] != 0
      ensures LastPart(path, len, slash) && fits == (0 < len - (slash + 1) <= MAX_NAME)
      ensures fits ==> name == NamePart(path, len, slash) && NameOk(name)
    {
      len, slash := LastSlash(path);
      var nameLen := len - (slash + 1);
      fits, name := 0 < nameLen <= MAX_NAME, [];
      if fits { name := path[slash + 1..len]; }
    }

    /** `find_name_in_parent`: the first plain entry of `parent` that leads to `child`. */
    method FindName(parent: nat, child: nat, ghost t: Tree) returns (ok: bool, name: Name)
      requires Valid() && (heapOk ==> Depicts(S(), t) && parent in t.dirs) && child != 0
      ensures ok ==> Plain(name)
      ensures heapOk && ok ==> To(t, parent, name) == child && NameOk(name)
      ensures heapOk && !ok ==> forall nm :: Plain(nm) ==> To(t, parent, nm) != child
    {
      hide MetaOk, Inv, Depicts, DIno, DName, To, Slots, NameOk;
      if heapOk { DirOfTree(S(), t, parent); }
      var next, ino := 0, 0;
      ok, next, ino, name := Readdir(parent, 0);
      ghost var seen: nat := 0;
      while ok
        invariant ok ==> IsIno(parent) && seen < next <= Slots(S(), parent)
        invariant ok ==> ino == DIno(S(), parent, next - 1) != 0 && name == DName(S(), parent, next - 1)
        invariant heapOk && ok ==> forall x :: seen <= x < next - 1 ==> DIno(S(), parent, x) == 0
        invariant heapOk && !ok ==> forall x :: seen <= x < Slots(S(), parent) ==> DIno(S(), parent, x) == 0
        invariant heapOk ==> forall x :: 0 <= x < seen ==>
                    DIno(S(), parent, x) != child || !Plain(DName(S(), parent, x))
        decreases if ok then Slots(S(), parent) - seen else 0, ok
      {
        if name != DOT && name != DOTDOT && ino == child {
          if heapOk { LiveEntry(S(), t, parent, next - 1); }
          return;
        }
        seen := next;
        ok, next, ino, name := Readdir(parent, next);
      }
      if heapOk {
        forall nm | Plain(nm) ensures To(t, parent, nm) != child { EntryHasSlot(S(), t, parent, nm, child); }
      }
    }

    /** `lufirafs_get_path`: climbs the `..` entries to the root, at most 32 of them,
        and prints the names found on the way. */
    method GetPath(ino: nat, outSize: nat, ghost t: Tree) returns (ok: bool, out: seq<Byte>)
      requires Valid() && ino != 0 && (heapOk ==> Depicts(S(), t))
      ensures ok ==> |out| < outSize
      ensures heapOk && ok ==> Walk(t, ROOT, Components(out, 0)) == ino
      ensures heapOk && !ok && ino in t.dirs && outSize >= 2 ==>
                forall p :: AllPlain(p) && Walk(t, ROOT, p) == ino ==> |p| > 32 || |Print(p)| >= outSize
    {
      hide MetaOk, Inv, Depicts, To, Components, Print;
      ok, out := false, [];
      if outSize < 2 { return; }
      if ino == ROOT { RootPrints(t); return true, [SLASH]; }
      var names: seq<Name>, cur := [], ino;
      ClimbStart(t, ino);
      while cur != ROOT
        invariant cur != 0 && |names| <= 32
        invariant heapOk ==> Climbed(t, ino, cur, names) && (ino in t.dirs ==> cur in t.dirs)
        decreases 32 - |names|
      {
        if |names| >= 32 { return false, []; }
        var parent, name;
        ok, parent := LookupEntry(cur, DOTDOT, t);
        if heapOk { UpFrom(S(), t, cur); }
        if !ok { return; }
        ok, name := FindName(parent, cur, t);
        if heapOk { Climb(S(), t, ino, cur, names, parent, name, ok); }
        if !ok { return; }
        names := [name] + names;
        if parent == cur { break; }
        cur := parent;
      }
      ok, out := PrintInto(names, outSize);
      if heapOk { AtTop(S(), t, ino, names); }
    }

    /** The printing loop: fails as soon as the text and its terminator do not fit. */
    static method PrintInto(names: seq<Name>, outSize: nat) returns (ok: bool, out: seq<Byte>)
      requires outSize >= 2
      ensures ok == (|Print(names)| < outSize)
      ensures ok ==> out == Print(names)
    {
      out := [];
      for i := 0 to |names|
        invariant out == Print(names[..i]) && |out| < outSize
      {
        assert names[..i + 1] == names[..i] + [names[i]];
        PrintSnoc(names[..i], names[i]);
        if |out| + 1 + |names[i]| >= outSize { PrintLonger(names, i + 1); return false, out; }
        out := out + [SLASH] + names[i];
      }
      assert names[..|names|] == names;
      ok := true;
    }
  }

  /** A bit of the map lies in one block only. */
  lemma BitElsewhere(img: seq<Byte>, now: seq<Byte>, block: nat, d: Block, b: nat)
    requires |now| == |img| && (b + 1) * BLOCK_SIZE <= |img| && BLOCK_SIZE + block / 8 < |img| && OnDisk(img, d, b)
    requires now == img[BLOCK_SIZE + block / 8 := now[BLOCK_SIZE + block / 8]] && b != 1 + block / 8 / BLOCK_SIZE
    ensures OnDisk(now, d, b)
  {
    assert (BLOCK_SIZE + block / 8) / BLOCK_SIZE == 1 + block / 8 / BLOCK_SIZE;
  }

  /** The free-inode counter, one down and one up. */
  function Less(n: U32): U32 { if n > 0 then n - 1 else 0 }
  function More(n: U32): U32 { (n + 1) % 0x1_0000_0000 }

  lemma Joined(d: seq<Byte>, a: nat, n: nat)
    requires a + n <= |d|
    ensures d[..a] + d[a..a + n] == d[..a + n] && |d[a..a + n]| == n
  {}
}
