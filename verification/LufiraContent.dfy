/** What writing and truncating do to the bytes of files, seen as plain byte
    sequences, and exactly when the gap that a write leaves reads as zeros. */
module LufiraContent {
  import opened LufiraFormat
  import opened LufiraState

  predicate SameOwner(a: Inode, b: Inode) {
    a.mode == b.mode && a.links == b.links && a.uid == b.uid && a.gid == b.gid && a.perm == b.perm
  }

  /** A record as create leaves it: owner, group and permissions as given, with two links for a
      directory and one for a file. */
  predicate Born(inode: Inode, mode: U32, uid: U32, gid: U32, perm: U32)
    ensures Born(inode, mode, uid, gid, perm) ==> inode.mode == mode
  {
    && inode.mode == mode && inode.uid == uid && inode.gid == gid && inode.perm == perm
    && inode.links == if mode == MODE_DIR then 2 else 1
  }

  /** Nothing but inode `ino` and its blocks differs between `s` and `t`. */
  ghost predicate OthersSame(s: State, t: State, ino: nat)
    requires Shape(s) && Shape(t)
  {
    && (forall i :: IsIno(i) && i != ino ==> InodeOf(t, i) == InodeOf(s, i))
    && (forall i, k :: IsIno(i) && i != ino && 0 <= k ==> BlockAt(t, i, k) == BlockAt(s, i, k))
  }

  /** File `ino` of `t` holds the bytes of `s` overwritten at `offset` by `d`. */
  ghost predicate Patched(s: State, t: State, ino: nat, offset: nat, d: seq<Byte>)
    requires Shape(s) && IsIno(ino)
    ensures Patched(s, t, ino, offset, d) ==> Inv(t)
  {
    && Inv(t) && t.dataStart == s.dataStart && |t.disk| == |s.disk|
    && OthersSame(s, t, ino)
    && SameOwner(InodeOf(t, ino), InodeOf(s, ino))
    && (forall p :: 0 <= p ==>
          ByteAt(t, ino, p) == if offset <= p < offset + |d| then d[p - offset] else ByteAt(s, ino, p))
  }

  ghost predicate Wrote(s: State, t: State, ino: nat, offset: nat, d: seq<Byte>)
    requires Shape(s) && IsIno(ino)
  {
    && Patched(s, t, ino, offset, d)
    && InodeOf(t, ino).size ==
         if offset + |d| > InodeOf(s, ino).size then offset + |d| else InodeOf(s, ino).size
  }

  function PatchBlock(b: Block, off: nat, c: seq<Byte>): Block
    requires off + |c| <= BLOCK_SIZE
  {
    b[..off] + c + b[off + |c|..]
  }

  lemma PatchedRefl(s: State, ino: nat, offset: nat)
    requires Inv(s) && IsIno(ino)
    ensures Patched(s, s, ino, offset, [])
  {}

  lemma PatchedGrew(s: State, v: State, w: State, ino: nat, offset: nat, d: seq<Byte>, k: nat)
    requires Shape(s) && IsIno(ino) && Patched(s, v, ino, offset, d) && Grew(v, w, ino, k)
    ensures Patched(s, w, ino, offset, d)
  {
    forall i, m | IsIno(i) && i != ino && 0 <= m ensures BlockAt(w, i, m) == BlockAt(s, i, m) {
      assert BlockAt(w, i, m) == BlockAt(v, i, m);
    }
    forall p | 0 <= p
      ensures ByteAt(w, ino, p) == if offset <= p < offset + |d| then d[p - offset] else ByteAt(s, ino, p)
    {
      assert BlockAt(w, ino, p / BLOCK_SIZE) == BlockAt(v, ino, p / BLOCK_SIZE);
      assert ByteAt(w, ino, p) == ByteAt(v, ino, p);
    }
  }

  /** One turn of the loop of `lufirafs_write`. */
  lemma PatchedStep(s: State, v: State, ino: nat, offset: nat, d: seq<Byte>, c: seq<Byte>)
    requires Shape(s) && IsIno(ino) && Patched(s, v, ino, offset, d)
    requires (offset + |d|) % BLOCK_SIZE + |c| <= BLOCK_SIZE
    requires (offset + |d|) / BLOCK_SIZE < MAX_BLOCKS && Ptr(v, ino, (offset + |d|) / BLOCK_SIZE) != 0
    ensures var k := (offset + |d|) / BLOCK_SIZE;
            Patched(s, BlockSet(v, ino, k, PatchBlock(BlockAt(v, ino, k), (offset + |d|) % BLOCK_SIZE, c)),
                    ino, offset, d + c)
  {
    var pos := offset + |d|;
    var k, off := pos / BLOCK_SIZE, pos % BLOCK_SIZE;
    var data := PatchBlock(BlockAt(v, ino, k), off, c);
    var w := BlockSet(v, ino, k, data);
    SetBlock(v, ino, k, data);
    forall i, m | IsIno(i) && i != ino && 0 <= m ensures BlockAt(w, i, m) == BlockAt(s, i, m) {
      assert BlockAt(w, i, m) == BlockAt(v, i, m);
    }
    forall p | 0 <= p
      ensures ByteAt(w, ino, p) == if offset <= p < offset + |d + c| then (d + c)[p - offset] else ByteAt(s, ino, p)
    {
      PatchedByte(v, w, ino, pos, c, p);
    }
  }

  lemma PatchedByte(v: State, w: State, ino: nat, pos: nat, c: seq<Byte>, p: nat)
    requires Shape(v) && Shape(w) && IsIno(ino) && pos % BLOCK_SIZE + |c| <= BLOCK_SIZE
    requires BlockAt(w, ino, pos / BLOCK_SIZE) == PatchBlock(BlockAt(v, ino, pos / BLOCK_SIZE), pos % BLOCK_SIZE, c)
    requires forall m :: 0 <= m && m != pos / BLOCK_SIZE ==> BlockAt(w, ino, m) == BlockAt(v, ino, m)
    ensures ByteAt(w, ino, p) == if pos <= p < pos + |c| then c[p - pos] else ByteAt(v, ino, p)
  {
    if pos <= p < pos + |c| {
      InOneBlock(pos, p - pos);
    } else if p / BLOCK_SIZE == pos / BLOCK_SIZE {
      var off := pos % BLOCK_SIZE;
      assert p % BLOCK_SIZE < off || p % BLOCK_SIZE >= off + |c|;
    } else {
      assert BlockAt(w, ino, p / BLOCK_SIZE) == BlockAt(v, ino, p / BLOCK_SIZE);
    }
  }

  lemma WroteSized(s: State, v: State, ino: nat, offset: nat, d: seq<Byte>, n: U32)
    requires Shape(s) && IsIno(ino) && Patched(s, v, ino, offset, d)
    requires n == if offset + |d| > InodeOf(s, ino).size then offset + |d| else InodeOf(s, ino).size
    ensures Wrote(s, View(v, ino, InodeOf(v, ino).(size := n)), ino, offset, d)
  {
    var t := View(v, ino, InodeOf(v, ino).(size := n));
    Resized(v, ino, n);
    forall i, k | IsIno(i) && i != ino && 0 <= k ensures BlockAt(t, i, k) == BlockAt(s, i, k) {
      assert BlockAt(t, i, k) == BlockAt(v, i, k);
    }
    forall p | 0 <= p ensures ByteAt(t, ino, p) == ByteAt(v, ino, p) {
      assert BlockAt(t, ino, p / BLOCK_SIZE) == BlockAt(v, ino, p / BLOCK_SIZE);
    }
  }

  // -------------------------------------------------- files as byte sequences

  /** `c`, zero-filled up to `offset` and overwritten there by `d`. */
  function Overwrite(c: seq<Byte>, offset: nat, d: seq<Byte>): seq<Byte> {
    var n := if offset + |d| > |c| then offset + |d| else |c|;
    seq(n, p requires 0 <= p < n =>
      if offset <= p < offset + |d| then d[p - offset] else if p < |c| then c[p] else 0)
  }

  /** The allocated bytes of a file past its end are zero. */
  ghost predicate TailZero(st: State, ino: nat)
    requires Shape(st) && IsIno(ino)
  {
    forall p :: InodeOf(st, ino).size <= p ==> ByteAt(st, ino, p) == 0
  }

  lemma ContentSame(s: State, t: State, ino: nat, i: nat)
    requires Shape(s) && Shape(t) && OthersSame(s, t, ino) && IsIno(i) && i != ino
    ensures Content(t, i) == Content(s, i) && (TailZero(t, i) <==> TailZero(s, i))
  {
    forall p | 0 <= p ensures ByteAt(t, i, p) == ByteAt(s, i, p) {
      assert BlockAt(t, i, p / BLOCK_SIZE) == BlockAt(s, i, p / BLOCK_SIZE);
    }
  }

  /** A write refines overwriting a byte sequence exactly when the bytes between
      the end of the file and `offset` are zero on disk. */
  lemma WriteContentIff(s: State, t: State, ino: nat, offset: nat, d: seq<Byte>)
    requires Shape(s) && IsIno(ino) && Wrote(s, t, ino, offset, d)
    ensures Content(t, ino) == Overwrite(Content(s, ino), offset, d)
            <==> forall p :: InodeOf(s, ino).size <= p < offset ==> ByteAt(s, ino, p) == 0
  {
    var c, e, o := Content(s, ino), Content(t, ino), Overwrite(Content(s, ino), offset, d);
    assert |e| == |o|;
    if e == o {
      forall p | |c| <= p < offset ensures ByteAt(s, ino, p) == 0 { assert e[p] == o[p]; }
    }
    if forall p :: |c| <= p < offset ==> ByteAt(s, ino, p) == 0 {
      forall p | 0 <= p < |e| ensures e[p] == o[p] { assert e[p] == ByteAt(t, ino, p); }
    }
  }

  // --------------------------------------------------------------- truncate

  /** Blocks that `size` bytes take, in 32-bit arithmetic. */
  function NBlocks(size: U32): nat { (size + 8191) % 0x1_0000_0000 / BLOCK_SIZE }

  /** File `ino` was cut (or stretched) to `n` bytes: blocks before the new end
      are kept; a block past it is gone, or kept if the heap ran out. */
  ghost predicate Cut(s: State, t: State, ino: nat, n: U32, heapOk: bool)
    requires Shape(s) && IsIno(ino)
  {
    && Inv(t) && t.dataStart == s.dataStart && |t.disk| == |s.disk|
    && OthersSame(s, t, ino)
    && SameOwner(InodeOf(t, ino), InodeOf(s, ino)) && InodeOf(t, ino).size == n
    && var size := InodeOf(s, ino).size;
    && (forall k :: 0 <= k ==>
          || BlockAt(t, ino, k) == BlockAt(s, ino, k)
          || (n < size && NBlocks(n) <= k && BlockAt(t, ino, k) == ZeroBlock()))
    && (n < size ==> forall k ::
          NBlocks(n) <= k < NBlocks(size) && (heapOk || k < DIRECT) ==> BlockAt(t, ino, k) == ZeroBlock())
    && (n < size && NBlocks(n) == 0 ==> forall k :: DIRECT <= k ==> BlockAt(t, ino, k) == ZeroBlock())
  }

  /** The slots whose blocks truncation to `n` bytes gives back: those past the new end, and the
      indirect block if nothing is left. */
  ghost function CutHeld(s: State, ino: nat, n: U32): set<nat>
    requires Inv(s) && IsIno(ino)
  {
    if n < InodeOf(s, ino).size then Held(s, ino, NBlocks(n), NBlocks(InodeOf(s, ino).size), NBlocks(n) == 0) else {}
  }

  /** What truncation gives back. */
  ghost predicate CutBack(s: State, bits: seq<bool>, ino: nat, n: U32, heapOk: bool) {
    && Inv(s) && IsIno(ino)
    && var size := InodeOf(s, ino).size;
    if n < size then Returned(s, bits, ino, NBlocks(n), NBlocks(size), NBlocks(n) == 0, heapOk) else bits == s.bits
  }

  lemma CutCount(s: State, bits: seq<bool>, ino: nat, n: U32, heapOk: bool)
    requires CutBack(s, bits, ino, n, heapOk)
    ensures heapOk ==> ClearFrom(bits, s.dataStart) == ClearFrom(s.bits, s.dataStart) + |CutHeld(s, ino, n)|
  {
    hide NBlocks, ClearFrom;
    var size := InodeOf(s, ino).size;
    if heapOk && n < size { ReturnedCount(s, bits, ino, NBlocks(n), NBlocks(size), NBlocks(n) == 0); }
  }

  /** The slots whose blocks `unlink` gives back: those below the end of the file and the indirect block. */
  ghost function AllHeld(s: State, ino: nat): set<nat>
    requires Inv(s) && IsIno(ino)
  {
    Held(s, ino, 0, NBlocks(InodeOf(s, ino).size), true)
  }

  /** What removal of `ino` gives back. */
  ghost predicate Emptied(s: State, bits: seq<bool>, ino: nat, heapOk: bool)
    ensures Emptied(s, bits, ino, heapOk) ==> Inv(s) && IsIno(ino)
  {
    Inv(s) && IsIno(ino) && Returned(s, bits, ino, 0, NBlocks(InodeOf(s, ino).size), true, heapOk)
  }

  lemma EmptiedCount(s: State, bits: seq<bool>, ino: nat, heapOk: bool)
    requires Emptied(s, bits, ino, heapOk)
    ensures heapOk ==> ClearFrom(bits, s.dataStart) == ClearFrom(s.bits, s.dataStart) + |AllHeld(s, ino)|
  {
    hide NBlocks;
    if heapOk { ReturnedCount(s, bits, ino, 0, NBlocks(InodeOf(s, ino).size), true); }
  }

  lemma Stretched(s: State, ino: nat, n: U32, heapOk: bool)
    requires Inv(s) && IsIno(ino) && n >= InodeOf(s, ino).size
    ensures Cut(s, View(s, ino, InodeOf(s, ino).(size := n)), ino, n, heapOk)
  {
    Resized(s, ino, n);
  }

  /** Which slots of the caller's inode copy the shrinking loop has emptied. */
  ghost predicate Shrunk(s: State, v: State, ino: nat, n: U32, heapOk: bool)
    requires Shape(s) && Shape(v) && IsIno(ino)
  {
    && (forall k :: 0 <= k < MAX_BLOCKS && k < NBlocks(n) ==> Ptr(v, ino, k) == Ptr(s, ino, k))
    && (forall k :: NBlocks(n) <= k < NBlocks(InodeOf(s, ino).size) && k < MAX_BLOCKS && (heapOk || k < DIRECT) ==>
          Ptr(v, ino, k) == 0)
    && (NBlocks(n) == 0 ==> forall k :: DIRECT <= k < MAX_BLOCKS ==> Ptr(v, ino, k) == 0)
  }

  lemma CutDone(s: State, v: State, ino: nat, n: U32, freed: set<nat>, heapOk: bool)
    requires Inv(s) && IsIno(ino) && GaveUp(s, v, ino, freed) && Shrunk(s, v, ino, n, heapOk)
    requires SameOwner(InodeOf(v, ino), InodeOf(s, ino)) && n < InodeOf(s, ino).size
    ensures Cut(s, View(v, ino, InodeOf(v, ino).(size := n)), ino, n, heapOk)
  {
    GaveUpInv(s, v, ino, freed);
    Resized(v, ino, n);
    var t := View(v, ino, InodeOf(v, ino).(size := n));
    forall i, k | IsIno(i) && i != ino && 0 <= k ensures BlockAt(t, i, k) == BlockAt(s, i, k) {
      assert BlockAt(t, i, k) == BlockAt(v, i, k);
    }
    forall k | 0 <= k ensures BlockAt(t, ino, k) == BlockAt(v, ino, k) {}
    forall k | 0 <= k < MAX_BLOCKS && Ptr(v, ino, k) == 0 ensures BlockAt(v, ino, k) == ZeroBlock() {}
    forall k | 0 <= k
      ensures BlockAt(t, ino, k) == BlockAt(s, ino, k) || (NBlocks(n) <= k && BlockAt(t, ino, k) == ZeroBlock())
    {
      if k < MAX_BLOCKS && Ptr(v, ino, k) == 0 && k < NBlocks(n) { assert Ptr(s, ino, k) == 0; }
    }
  }

  /** Progress of the shrinking loop: the caller's inode copy and, when it could
      be read, the copy of the indirect block have lost exactly the freed slots. */
  ghost predicate Clearing(s: State, ino: nat, inode: Inode, have: bool, buf: Block, freed: set<nat>)
    requires Shape(s) && IsIno(ino)
  {
    var orig := InodeOf(s, ino);
    && inode == orig.(direct := inode.direct)
    && (forall k :: 0 <= k < DIRECT ==> inode.direct[k] == if k in freed then 0 else orig.direct[k])
    && (have ==> forall k :: DIRECT <= k < MAX_BLOCKS ==> Entry(buf, k) == if k in freed then 0 else Ptr(s, ino, k))
    && (!have ==> forall k :: k in freed ==> k < DIRECT)
  }

  lemma ClearingStart(s: State, ino: nat, have: bool, buf: Block)
    requires Inv(s) && IsIno(ino)
    requires have ==> InodeOf(s, ino).indirect != 0 && buf == s.disk[Ptr(s, ino, IND)]
    ensures Clearing(s, ino, InodeOf(s, ino), have, buf, {})
    ensures forall bits :: bits == s.bits ==> GivenBack(s, bits, ino, {})
  {
    PtrIsIndirect(s, ino);
  }

  lemma ClearingSlot(s: State, ino: nat, inode: Inode, have: bool, buf: Block, freed: set<nat>, b: nat)
    requires Inv(s) && IsIno(ino) && Clearing(s, ino, inode, have, buf, freed)
    ensures inode.indirect == InodeOf(s, ino).indirect
    ensures b < MAX_BLOCKS && b !in freed ==> SlotOf(s.disk, inode, b) == Ptr(s, ino, b)
    ensures DIRECT <= b < MAX_BLOCKS && inode.indirect == 0 ==> SlotOf(s.disk, inode, b) == 0
  {}

  lemma ClearingDirect(s: State, ino: nat, inode: Inode, have: bool, buf: Block, freed: set<nat>, b: nat)
    requires Shape(s) && IsIno(ino) && Clearing(s, ino, inode, have, buf, freed) && b < DIRECT
    ensures Clearing(s, ino, inode.(direct := inode.direct[b := 0]), have, buf, freed + {b})
  {}

  lemma ClearingEntry(s: State, ino: nat, inode: Inode, buf: Block, freed: set<nat>, b: nat)
    requires Shape(s) && IsIno(ino) && Clearing(s, ino, inode, true, buf, freed) && DIRECT <= b < MAX_BLOCKS
    ensures Clearing(s, ino, inode, true, PutU32(buf, 4 * (b - DIRECT), 0), freed + {b})
  {
    var c := PutU32(buf, 4 * (b - DIRECT), 0);
    hide PutU32;
    forall k | DIRECT <= k < MAX_BLOCKS && k != b ensures Entry(c, k) == Entry(buf, k) {}
  }

  /** The state once the indirect block is written back and, when nothing is
      left, given up too. */
  lemma ClearingDone(s: State, v: State, ino: nat, inode: Inode, have: bool, buf: Block, freed: set<nat>)
    requires Inv(s) && IsIno(ino) && Clearing(s, ino, inode, have, buf, freed) && Shape(v)
    requires IND !in freed && v.dataStart == s.dataStart && |v.disk| == |s.disk| && GivenBack(s, v.bits, ino, freed)
    requires v.inodes == s.inodes[ino - 1 := inode]
    requires have ==> inode.indirect != 0
    requires v.disk == if have then s.disk[Ptr(s, ino, IND) := buf] else s.disk
    ensures GaveUp(s, v, ino, freed)
    ensures forall k :: 0 <= k <= IND ==> Ptr(v, ino, k) == if k in freed then 0 else Ptr(s, ino, k)
  {
    assert Ptr(s, ino, IND) == inode.indirect;
    forall k | 0 <= k <= IND ensures Ptr(v, ino, k) == if k in freed then 0 else Ptr(s, ino, k) {}
  }

  lemma IndirectGone(s: State, v: State, t: State, ino: nat, freed: set<nat>)
    requires Inv(s) && IsIno(ino) && GaveUp(s, v, ino, freed) && IND !in freed && Ptr(v, ino, IND) != 0
    requires t == View(v, ino, InodeOf(v, ino).(indirect := 0)).(bits := v.bits[Ptr(s, ino, IND) := false])
    ensures GaveUp(s, t, ino, freed + {IND})
    ensures forall k :: 0 <= k < DIRECT ==> Ptr(t, ino, k) == Ptr(v, ino, k)
    ensures forall k :: DIRECT <= k <= IND ==> Ptr(t, ino, k) == 0
  {
    hide GivenBack, Owned, Unshared;
    FreeSlot(s, v.bits, ino, freed, IND);
    forall k | 0 <= k < DIRECT ensures Ptr(t, ino, k) == Ptr(v, ino, k) {}
    forall k | DIRECT <= k <= IND ensures Ptr(t, ino, k) == 0 {}
  }

  /** Truncation keeps a prefix; stretching exposes what lies past the end. */
  lemma CutContent(s: State, t: State, ino: nat, n: U32, heapOk: bool)
    requires Shape(s) && IsIno(ino) && Cut(s, t, ino, n, heapOk) && n <= MAX_FILE_SIZE
    ensures n <= InodeOf(s, ino).size ==> Content(t, ino) == Content(s, ino)[..n]
    ensures n >= InodeOf(s, ino).size && TailZero(s, ino) ==> Content(t, ino) == Overwrite(Content(s, ino), n, [])
    ensures forall i :: IsIno(i) && i != ino ==> Content(t, i) == Content(s, i)
  {
    forall p | 0 <= p < n ensures ByteAt(t, ino, p) == ByteAt(s, ino, p) {
      assert p / BLOCK_SIZE < NBlocks(n);
      assert BlockAt(t, ino, p / BLOCK_SIZE) == BlockAt(s, ino, p / BLOCK_SIZE);
    }
    forall i | IsIno(i) && i != ino ensures Content(t, i) == Content(s, i) { ContentSame(s, t, ino, i); }
  }

  /** Cutting leaves nothing past the new end exactly when the rest of its last
      block was zero already: `lufirafs_truncate` never clears that rest. */
  lemma CutTailIff(s: State, t: State, ino: nat, n: U32, heapOk: bool)
    requires Shape(s) && IsIno(ino) && Cut(s, t, ino, n, heapOk) && TailZero(s, ino)
    requires n <= MAX_FILE_SIZE && InodeOf(s, ino).size <= MAX_FILE_SIZE && (heapOk || n == 0)
    ensures TailZero(t, ino) <==> forall p :: n <= p < InodeOf(s, ino).size && p < NBlocks(n) * BLOCK_SIZE ==>
              ByteAt(s, ino, p) == 0
  {
    var size := InodeOf(s, ino).size;
    forall p | n <= p ensures ByteAt(t, ino, p) == if p < NBlocks(n) * BLOCK_SIZE then ByteAt(s, ino, p) else 0 {
      CutByte(s, t, ino, n, heapOk, p);
    }
    if TailZero(t, ino) {
      forall p | n <= p < size && p < NBlocks(n) * BLOCK_SIZE ensures ByteAt(s, ino, p) == 0 {
        assert ByteAt(t, ino, p) == 0;
      }
    }
    if forall p :: n <= p < size && p < NBlocks(n) * BLOCK_SIZE ==> ByteAt(s, ino, p) == 0 {
      forall p | n <= p ensures ByteAt(t, ino, p) == 0 {
        if p >= size { assert ByteAt(s, ino, p) == 0; }
      }
    }
  }

  lemma CutByte(s: State, t: State, ino: nat, n: U32, heapOk: bool, p: nat)
    requires Shape(s) && IsIno(ino) && Cut(s, t, ino, n, heapOk) && TailZero(s, ino)
    requires n <= MAX_FILE_SIZE && InodeOf(s, ino).size <= MAX_FILE_SIZE && (heapOk || n == 0) && n <= p
    ensures ByteAt(t, ino, p) == if p < NBlocks(n) * BLOCK_SIZE then ByteAt(s, ino, p) else 0
  {
    var k := p / BLOCK_SIZE;
    var size := InodeOf(s, ino).size;
    if k < NBlocks(n) {
      assert BlockAt(t, ino, k) == BlockAt(s, ino, k);
    } else if n < size && k < NBlocks(size) {
      assert BlockAt(t, ino, k) == ZeroBlock();
    } else {
      assert size <= p;
      assert ByteAt(s, ino, p) == 0;
      assert BlockAt(t, ino, k) == BlockAt(s, ino, k) || BlockAt(t, ino, k) == ZeroBlock();
    }
  }

  /** Truncating to nothing always leaves an empty file that is zero throughout. */
  lemma CutToZero(s: State, t: State, ino: nat, heapOk: bool)
    requires Shape(s) && IsIno(ino) && Cut(s, t, ino, 0, heapOk) && TailZero(s, ino)
    requires InodeOf(s, ino).size <= MAX_FILE_SIZE
    ensures Content(t, ino) == [] && TailZero(t, ino)
  {
    CutTailIff(s, t, ino, 0, heapOk);
    assert NBlocks(0) == 0;
    assert InodeOf(t, ino).size == 0;
    hide Cut, TailZero, ByteAt;
  }

  // ------------------------------------------------------------------- sync

  /** Writing metadata blocks to disk touches no file. */
  lemma MetaWritten(s: State, t: State)
    requires Inv(s) && Shape(t) && t.dataStart == s.dataStart && t.bits == s.bits && t.inodes == s.inodes
    requires |t.disk| == |s.disk| && forall b :: s.dataStart <= b < |s.disk| ==> t.disk[b] == s.disk[b]
    ensures Inv(t) && SameBlocks(s, t)
    ensures forall i :: IsIno(i) ==> Content(t, i) == Content(s, i) && (TailZero(t, i) <==> TailZero(s, i))
  {
    forall i, k | IsIno(i) && 0 <= k <= IND ensures Ptr(t, i, k) == Ptr(s, i, k) { PtrIsIndirect(s, i); }
    assert Owned(t) && Unshared(t);
    forall i, k | IsIno(i) && 0 <= k ensures BlockAt(t, i, k) == BlockAt(s, i, k) {}
    forall i | IsIno(i) ensures Content(t, i) == Content(s, i) && (TailZero(t, i) <==> TailZero(s, i)) {
      forall p | 0 <= p ensures ByteAt(t, i, p) == ByteAt(s, i, p) {
        assert BlockAt(t, i, p / BLOCK_SIZE) == BlockAt(s, i, p / BLOCK_SIZE);
      }
    }
  }
}
