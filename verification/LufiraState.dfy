/** The decoded state of a LufiraFS volume and its ownership discipline: which
    data block each pointer slot names, what the blocks of a file hold, and how
    every elementary step of the driver moves that state. */
module LufiraState {
  import opened LufiraFormat

  /** `dataStart` is the first data block; `inodes[i]` is inode number `i + 1`. */
  datatype State = State(dataStart: nat, bits: seq<bool>, inodes: seq<Inode>, disk: seq<Block>)

  /** The slots of an inode: data blocks are slots 0..2059, the pointer to the
      indirect block is slot 2060. */
  const IND: nat := MAX_BLOCKS

  predicate Shape(st: State) {
    && |st.bits| == |st.disk| <= 0x1000_0000
    && |st.inodes| == INODE_COUNT
    && 0 < st.dataStart < |st.disk|
  }

  predicate IsIno(ino: nat) { 1 <= ino <= INODE_COUNT }

  function InodeOf(st: State, ino: nat): Inode
    requires Shape(st) && IsIno(ino)
  {
    st.inodes[ino - 1]
  }

  function SlotOf(disk: seq<Block>, inode: Inode, k: nat): nat
    requires k <= IND
  {
    if k < DIRECT then inode.direct[k]
    else if k == IND then inode.indirect
    else if inode.indirect == 0 || inode.indirect >= |disk| then 0
    else Entry(disk[inode.indirect], k)
  }

  /** The word of an indirect block that names data block `k`. */
  function Entry(b: Block, k: nat): U32
    requires DIRECT <= k < MAX_BLOCKS
  {
    GetU32(b, 4 * (k - DIRECT))
  }

  function Ptr(st: State, ino: nat, k: nat): nat
    requires Shape(st) && IsIno(ino) && k <= IND
  {
    SlotOf(st.disk, InodeOf(st, ino), k)
  }

  /** Every block that is pointed to is a data block marked used. */
  ghost predicate Owned(st: State)
    requires Shape(st)
  {
    forall ino, k :: IsIno(ino) && 0 <= k <= IND && Ptr(st, ino, k) != 0 ==>
      st.dataStart <= Ptr(st, ino, k) < |st.disk| && st.bits[Ptr(st, ino, k)]
  }

  /** No block is pointed to twice. */
  ghost predicate Unshared(st: State)
    requires Shape(st)
  {
    forall i, k, j, m :: IsIno(i) && IsIno(j) && 0 <= k <= IND && 0 <= m <= IND ==>
      Ptr(st, i, k) != 0 && Ptr(st, i, k) == Ptr(st, j, m) ==> i == j && k == m
  }

  ghost predicate Inv(st: State)
    ensures Inv(st) ==> Shape(st)
  {
    Shape(st) && Owned(st) && Unshared(st)
  }

  /** The contents of data block `k` of a file; a hole reads as zeros. */
  function BlockAt(st: State, ino: nat, k: nat): Block
    requires Shape(st) && IsIno(ino)
  {
    if k >= MAX_BLOCKS then ZeroBlock() else
    var p := Ptr(st, ino, k);
    if p == 0 || p >= |st.disk| then ZeroBlock() else st.disk[p]
  }

  function ByteAt(st: State, ino: nat, p: nat): Byte
    requires Shape(st) && IsIno(ino)
  {
    BlockAt(st, ino, p / BLOCK_SIZE)[p % BLOCK_SIZE]
  }

  /** The bytes of a file: what `lufirafs_read` is to return. */
  function Content(st: State, ino: nat): (c: seq<Byte>)
    requires Shape(st) && IsIno(ino)
    ensures |c| == InodeOf(st, ino).size
  {
    seq(InodeOf(st, ino).size, p requires 0 <= p < InodeOf(st, ino).size => ByteAt(st, ino, p))
  }

  lemma ContentWindow(st: State, ino: nat, offset: nat, w: seq<Byte>)
    requires Shape(st) && IsIno(ino) && offset + |w| <= InodeOf(st, ino).size
    requires forall q :: 0 <= q < |w| ==> w[q] == ByteAt(st, ino, offset + q)
    ensures w == Content(st, ino)[offset..offset + |w|]
  {}

  lemma InOneBlock(pos: nat, q: nat)
    requires pos % BLOCK_SIZE + q < BLOCK_SIZE
    ensures (pos + q) / BLOCK_SIZE == pos / BLOCK_SIZE && (pos + q) % BLOCK_SIZE == pos % BLOCK_SIZE + q
  {}

  /** How many bytes a read of `count` at `offset` returns. */
  function ReadLen(size: U32, offset: U32, count: U32): U32 {
    if offset >= size then 0
    else if (offset + count) % 0x1_0000_0000 > size then size - offset
    else count
  }

  /** Whether the 32-bit end of the range tells that it passes the end of the file. */
  predicate RangeKnown(size: U32, offset: U32, count: U32) {
    offset + count < 0x1_0000_0000 || (offset + count) % 0x1_0000_0000 > size
  }

  /** The conversion of a 32-bit count to `int`. */
  function ToInt(n: U32): int { if n < 0x8000_0000 then n else n - 0x1_0000_0000 }

  /** On a file within the maximum size, a range that runs past the end unnoticed is one for
      which a negative number is returned. */
  lemma NegativeIff(size: U32, offset: U32, count: U32)
    requires size <= MAX_FILE_SIZE && offset < size
    ensures ToInt(ReadLen(size, offset, count)) < 0 <==> !RangeKnown(size, offset, count)
  {}

  lemma ReadLenFits(size: U32, offset: U32, count: U32)
    requires ReadLen(size, offset, count) > 0
    ensures offset + ReadLen(size, offset, count) <= size <==> RangeKnown(size, offset, count)
  {}

  /** A position as a 32-bit number. */
  function Pos32(x: nat): nat { x % 0x1_0000_0000 }

  lemma Small(x: nat)
    requires x < 0x1_0000_0000
    ensures Pos32(x) == x
  {}

  /** It does not wrap inside a block. */
  lemma WrapInBlock(x: nat, i: nat)
    requires Pos32(x) % BLOCK_SIZE + i < BLOCK_SIZE
    ensures Pos32(x + i) == Pos32(x) + i
  {}

  lemma WrapNext(x: nat, i: nat)
    ensures Pos32(Pos32(x) + i) == Pos32(x + i)
  {
    var m := 0x1_0000_0000;
    assert x + i == m * (x / m) + (x % m + i);
  }

  /** The state as it will be once the caller's copy of inode `ino` is stored. */
  function View(st: State, ino: nat, inode: Inode): State
    requires Shape(st) && IsIno(ino)
  {
    st.(inodes := st.inodes[ino - 1 := inode])
  }

  ghost predicate SameBlocks(s: State, t: State)
    requires Shape(s) && Shape(t)
  {
    forall i, k :: IsIno(i) && 0 <= k ==> BlockAt(t, i, k) == BlockAt(s, i, k)
  }

  ghost predicate SamePtrs(s: State, t: State)
    requires Shape(s) && Shape(t)
  {
    forall i, k :: IsIno(i) && 0 <= k <= IND ==> Ptr(t, i, k) == Ptr(s, i, k)
  }

  // ------------------------------------------------- elementary transitions

  /** Marking a clear block used and zeroing it: `alloc_block`. */
  function Allocated(st: State, b: nat): State
    requires Shape(st) && b < |st.disk|
  {
    st.(bits := st.bits[b := true], disk := st.disk[b := ZeroBlock()])
  }

  lemma ZeroWords(off: nat)
    requires off + 4 <= BLOCK_SIZE
    ensures GetU32(ZeroBlock(), off) == 0
  {}

  lemma AllocatedPtr(st: State, b: nat, i: nat, k: nat)
    requires Inv(st) && st.dataStart <= b < |st.disk| && !st.bits[b]
    requires IsIno(i) && k <= IND
    ensures Ptr(Allocated(st, b), i, k) == Ptr(st, i, k) != b
  {
    assert Ptr(st, i, IND) == InodeOf(st, i).indirect;
  }

  lemma AllocatedInv(st: State, b: nat)
    requires Inv(st) && st.dataStart <= b < |st.disk| && !st.bits[b]
    ensures Inv(Allocated(st, b))
    ensures SamePtrs(st, Allocated(st, b)) && SameBlocks(st, Allocated(st, b))
    ensures forall i, k :: IsIno(i) && 0 <= k <= IND ==> Ptr(st, i, k) != b
  {
    var t := Allocated(st, b);
    forall i, k | IsIno(i) && 0 <= k <= IND ensures Ptr(t, i, k) == Ptr(st, i, k) != b { AllocatedPtr(st, b, i, k); }
    assert SamePtrs(st, t);
    assert Owned(t);
    assert Unshared(t);
    assert SameBlocks(st, t);
  }

  ghost predicate OneSlot(s: State, t: State, ino: nat, k: nat, b: nat)
    requires Shape(s) && Shape(t) && IsIno(ino) && k <= IND
  {
    && Ptr(t, ino, k) == b
    && forall i, m :: IsIno(i) && 0 <= m <= IND && !(i == ino && m == k) ==> Ptr(t, i, m) == Ptr(s, i, m)
  }

  /** Storing a used but unreferenced block in one empty slot keeps ownership. */
  lemma OneSlotInv(s: State, t: State, ino: nat, k: nat, b: nat)
    requires Inv(s) && Shape(t) && IsIno(ino) && k <= IND
    requires t.bits == s.bits && t.dataStart == s.dataStart && |t.disk| == |s.disk|
    requires OneSlot(s, t, ino, k, b)
    requires s.dataStart <= b < |s.disk| && s.bits[b]
    requires forall i, m :: IsIno(i) && 0 <= m <= IND ==> Ptr(s, i, m) != b
    ensures Inv(t)
  {
    assert Owned(t);
    forall i, x, j, y | IsIno(i) && IsIno(j) && 0 <= x <= IND && 0 <= y <= IND
      && Ptr(t, i, x) != 0 && Ptr(t, i, x) == Ptr(t, j, y)
      ensures i == j && x == y
    {
      assert Ptr(s, i, x) != b && Ptr(s, j, y) != b;
    }
  }

  ghost predicate Unreferenced(st: State, b: nat)
    requires Shape(st)
  {
    && st.dataStart <= b < |st.disk| && st.bits[b]
    && st.disk[b] == ZeroBlock()
    && forall i, k :: IsIno(i) && 0 <= k <= IND ==> Ptr(st, i, k) != b
  }

  lemma SetDirect(st: State, ino: nat, k: nat, b: nat)
    requires Inv(st) && IsIno(ino) && k < DIRECT && Ptr(st, ino, k) == 0 && Unreferenced(st, b)
    ensures var inode := InodeOf(st, ino);
            var t := View(st, ino, inode.(direct := inode.direct[k := b]));
            Inv(t) && OneSlot(st, t, ino, k, b) && SameBlocks(st, t)
  {
    var inode := InodeOf(st, ino);
    var t := View(st, ino, inode.(direct := inode.direct[k := b]));
    forall i, m | IsIno(i) && 0 <= m <= IND && !(i == ino && m == k) ensures Ptr(t, i, m) == Ptr(st, i, m) {}
    OneSlotInv(st, t, ino, k, b);
    forall i, m | IsIno(i) && 0 <= m ensures BlockAt(t, i, m) == BlockAt(st, i, m) {
      if i == ino && m == k { assert BlockAt(t, i, m) == st.disk[b]; }
    }
  }

  lemma SetIndirect(st: State, ino: nat, b: nat)
    requires Inv(st) && IsIno(ino) && InodeOf(st, ino).indirect == 0 && Unreferenced(st, b)
    ensures var t := View(st, ino, InodeOf(st, ino).(indirect := b));
            Inv(t) && OneSlot(st, t, ino, IND, b) && SameBlocks(st, t)
  {
    var t := View(st, ino, InodeOf(st, ino).(indirect := b));
    forall i, m | IsIno(i) && 0 <= m <= IND && !(i == ino && m == IND) ensures Ptr(t, i, m) == Ptr(st, i, m) {
      if i == ino && DIRECT <= m { ZeroWords(4 * (m - DIRECT)); }
    }
    OneSlotInv(st, t, ino, IND, b);
    forall i, m | IsIno(i) && 0 <= m ensures BlockAt(t, i, m) == BlockAt(st, i, m) {}
  }

  /** The state after word `k - 12` of the indirect block of `ino` became `b`. */
  function EntrySet(st: State, ino: nat, k: nat, b: U32): State
    requires Inv(st) && IsIno(ino) && DIRECT <= k < MAX_BLOCKS && InodeOf(st, ino).indirect != 0
  {
    var ib := Ptr(st, ino, IND);
    st.(disk := st.disk[ib := PutU32(st.disk[ib], 4 * (k - DIRECT), b)])
  }

  lemma EntrySetPtr(st: State, ino: nat, k: nat, b: U32, i: nat, m: nat)
    requires Inv(st) && IsIno(ino) && DIRECT <= k < MAX_BLOCKS && InodeOf(st, ino).indirect != 0
    requires IsIno(i) && m <= IND
    ensures Ptr(EntrySet(st, ino, k, b), i, m) == if i == ino && m == k then b else Ptr(st, i, m)
  {
    assert Ptr(st, i, IND) == InodeOf(st, i).indirect;
    assert Ptr(st, ino, IND) == InodeOf(st, ino).indirect;
  }

  lemma SetEntry(st: State, ino: nat, k: nat, b: nat)
    requires Inv(st) && IsIno(ino) && DIRECT <= k < MAX_BLOCKS && InodeOf(st, ino).indirect != 0
    requires Ptr(st, ino, k) == 0 && Unreferenced(st, b)
    ensures var t := EntrySet(st, ino, k, b);
            Inv(t) && OneSlot(st, t, ino, k, b) && SameBlocks(st, t)
  {
    var t := EntrySet(st, ino, k, b);
    forall i, m | IsIno(i) && 0 <= m <= IND ensures Ptr(t, i, m) == if i == ino && m == k then b else Ptr(st, i, m) {
      EntrySetPtr(st, ino, k, b, i, m);
    }
    OneSlotInv(st, t, ino, k, b);
    forall i, m | IsIno(i) && 0 <= m ensures BlockAt(t, i, m) == BlockAt(st, i, m) {
      if m < MAX_BLOCKS { assert Ptr(st, ino, IND) != Ptr(st, i, m); }
      assert Ptr(st, ino, IND) != b;
    }
  }

  /** The state after the data block in slot `k` was overwritten. */
  function BlockSet(st: State, ino: nat, k: nat, data: Block): State
    requires Inv(st) && IsIno(ino) && k < MAX_BLOCKS && Ptr(st, ino, k) != 0
  {
    st.(disk := st.disk[Ptr(st, ino, k) := data])
  }

  lemma SetBlock(st: State, ino: nat, k: nat, data: Block)
    requires Inv(st) && IsIno(ino) && k < MAX_BLOCKS && Ptr(st, ino, k) != 0
    ensures var t := BlockSet(st, ino, k, data);
            && Inv(t) && SamePtrs(st, t) && BlockAt(t, ino, k) == data
            && forall i, m :: IsIno(i) && 0 <= m && !(i == ino && m == k) ==> BlockAt(t, i, m) == BlockAt(st, i, m)
  {
    var t := BlockSet(st, ino, k, data);
    forall i, m | IsIno(i) && 0 <= m <= IND ensures Ptr(t, i, m) == Ptr(st, i, m) {
      assert Ptr(st, i, IND) != Ptr(st, ino, k);
    }
    assert Owned(t) && Unshared(t);
    forall i, m | IsIno(i) && 0 <= m && !(i == ino && m == k) ensures BlockAt(t, i, m) == BlockAt(st, i, m) {
      if m < MAX_BLOCKS { assert Ptr(st, i, m) != Ptr(st, ino, k); }
    }
  }

  lemma PtrInRange(st: State, ino: nat, k: nat)
    requires Inv(st) && IsIno(ino) && k <= IND && Ptr(st, ino, k) != 0
    ensures st.dataStart <= Ptr(st, ino, k) < |st.disk| && st.bits[Ptr(st, ino, k)]
  {}

  lemma PtrIsIndirect(st: State, ino: nat)
    requires Inv(st) && IsIno(ino)
    ensures Ptr(st, ino, IND) == InodeOf(st, ino).indirect
    ensures InodeOf(st, ino).indirect != 0 ==> st.dataStart <= InodeOf(st, ino).indirect < |st.disk|
  {
    assert Ptr(st, ino, IND) == InodeOf(st, ino).indirect;
  }

  /** The size of an inode has no part in who owns which block. */
  lemma Resized(v: State, ino: nat, n: U32)
    requires Inv(v) && IsIno(ino)
    ensures var t := View(v, ino, InodeOf(v, ino).(size := n));
            Inv(t) && SamePtrs(v, t) && SameBlocks(v, t)
  {
    var t := View(v, ino, InodeOf(v, ino).(size := n));
    forall i, k | IsIno(i) && 0 <= k <= IND ensures Ptr(t, i, k) == Ptr(v, i, k) {}
    assert Owned(t) && Unshared(t);
    forall i, m | IsIno(i) && 0 <= m ensures BlockAt(t, i, m) == BlockAt(v, i, m) {}
  }

  /** Dropping pointers keeps ownership as long as what remains is still marked used. */
  lemma ShrinkInv(s: State, t: State)
    requires Inv(s) && Shape(t) && t.dataStart == s.dataStart && |t.disk| == |s.disk|
    requires forall i, k :: IsIno(i) && 0 <= k <= IND ==> Ptr(t, i, k) == 0 || Ptr(t, i, k) == Ptr(s, i, k)
    requires forall i, k :: IsIno(i) && 0 <= k <= IND && Ptr(t, i, k) != 0 ==> t.bits[Ptr(t, i, k)]
    ensures Inv(t)
  {
    assert Owned(t);
    forall i, x, j, y | IsIno(i) && IsIno(j) && 0 <= x <= IND && 0 <= y <= IND
      && Ptr(t, i, x) != 0 && Ptr(t, i, x) == Ptr(t, j, y)
      ensures i == j && x == y
    {
      assert Ptr(t, i, x) == Ptr(s, i, x) && Ptr(t, j, y) == Ptr(s, j, y);
    }
  }

  ghost predicate Full(st: State)
    requires Shape(st)
  {
    forall x :: st.dataStart <= x < |st.bits| ==> st.bits[x]
  }

  predicate SameKind(a: Inode, b: Inode) {
    a.mode == b.mode && a.size == b.size && a.links == b.links && a.uid == b.uid && a.gid == b.gid && a.perm == b.perm
  }

  /** `t` extends `s` only by filling the empty slots `k` and IND of inode `ino`. */
  ghost predicate Grew(s: State, t: State, ino: nat, k: nat)
    requires Shape(s) && IsIno(ino)
    ensures Grew(s, t, ino, k) ==> Inv(t)
  {
    && Inv(t) && t.dataStart == s.dataStart && |t.disk| == |s.disk|
    && SameBlocks(s, t)
    && (forall i :: IsIno(i) && i != ino ==> InodeOf(t, i) == InodeOf(s, i))
    && SameKind(InodeOf(t, ino), InodeOf(s, ino))
    && (forall i, m :: IsIno(i) && 0 <= m <= IND && Ptr(t, i, m) != Ptr(s, i, m) ==>
          i == ino && (m == k || m == IND) && Ptr(s, i, m) == 0)
  }

  lemma GrewTrans(a: State, b: State, c: State, ino: nat, k: nat)
    requires Shape(a) && IsIno(ino) && Grew(a, b, ino, k) && Grew(b, c, ino, k)
    ensures Grew(a, c, ino, k)
  {
    forall i, m | IsIno(i) && 0 <= m <= IND && Ptr(c, i, m) != Ptr(a, i, m)
      ensures i == ino && (m == k || m == IND) && Ptr(a, i, m) == 0
    {
      if Ptr(b, i, m) == Ptr(a, i, m) { assert Ptr(c, i, m) != Ptr(b, i, m); }
    }
    assert SameBlocks(a, c) by {
      forall i, m | IsIno(i) && 0 <= m ensures BlockAt(c, i, m) == BlockAt(a, i, m) {
        assert BlockAt(b, i, m) == BlockAt(a, i, m);
      }
    }
  }

  lemma GrewDirect(v: State, ino: nat, k: nat, b: nat)
    requires Inv(v) && IsIno(ino) && k < DIRECT && Ptr(v, ino, k) == 0
    requires v.dataStart <= b < |v.disk| && !v.bits[b]
    ensures var inode := InodeOf(v, ino);
            var t := View(Allocated(v, b), ino, inode.(direct := inode.direct[k := b]));
            Grew(v, t, ino, k) && Ptr(t, ino, k) == b
  {
    AllocatedInv(v, b);
    SetDirect(Allocated(v, b), ino, k, b);
  }

  lemma GrewIndirect(v: State, ino: nat, k: nat, b: nat)
    requires Inv(v) && IsIno(ino) && InodeOf(v, ino).indirect == 0
    requires v.dataStart <= b < |v.disk| && !v.bits[b]
    ensures var t := View(Allocated(v, b), ino, InodeOf(v, ino).(indirect := b));
            Grew(v, t, ino, k) && Ptr(t, ino, IND) == b && forall m :: DIRECT <= m < MAX_BLOCKS ==> Ptr(t, ino, m) == 0
  {
    AllocatedInv(v, b);
    SetIndirect(Allocated(v, b), ino, b);
    var t := View(Allocated(v, b), ino, InodeOf(v, ino).(indirect := b));
    forall m | DIRECT <= m < MAX_BLOCKS ensures Ptr(t, ino, m) == 0 { assert Ptr(v, ino, m) == 0; }
  }

  lemma GrewEntry(v: State, ino: nat, k: nat, b: nat)
    requires Inv(v) && IsIno(ino) && DIRECT <= k < MAX_BLOCKS && InodeOf(v, ino).indirect != 0 && Ptr(v, ino, k) == 0
    requires v.dataStart <= b < |v.disk| && !v.bits[b]
    ensures Inv(Allocated(v, b))
    ensures var t := EntrySet(Allocated(v, b), ino, k, b);
            Grew(v, t, ino, k) && Ptr(t, ino, k) == b
  {
    AllocatedInv(v, b);
    assert Ptr(Allocated(v, b), ino, k) == 0;
    SetEntry(Allocated(v, b), ino, k, b);
  }

  /** Forgetting a freshly allocated, still empty indirect block. */
  lemma DropIndirect(v: State, ino: nat, inode: Inode)
    requires Inv(v) && IsIno(ino) && inode.indirect == 0 && InodeOf(v, ino).direct == inode.direct
    requires forall k :: DIRECT <= k < MAX_BLOCKS ==> Ptr(v, ino, k) == 0
    ensures Inv(View(v, ino, inode)) && SameBlocks(v, View(v, ino, inode))
  {
    var t := View(v, ino, inode);
    forall i, k | IsIno(i) && 0 <= k <= IND ensures Ptr(t, i, k) == 0 || Ptr(t, i, k) == Ptr(v, i, k) {}
    ShrinkInv(v, t);
    forall i, m | IsIno(i) && 0 <= m ensures BlockAt(t, i, m) == BlockAt(v, i, m) {}
  }

  // ------------------------------------------------------------ free count

  /** How many of the blocks from `from` on are clear. */
  function ClearFrom(bits: seq<bool>, from: nat): (n: nat)
    requires from <= |bits|
    ensures n <= |bits| - from
    decreases |bits| - from
  {
    if from == |bits| then 0 else (if bits[from] then 0 else 1) + ClearFrom(bits, from + 1)
  }

  lemma {:induction false} ClearFromUpdate(bits: seq<bool>, from: nat, b: nat, used: bool)
    requires from <= b < |bits| && bits[b] != used
    ensures ClearFrom(bits[b := used], from) == ClearFrom(bits, from) + (if used then -1 else 1)
    decreases |bits| - from
  {
    if from == b {
      ClearFromSame(bits, bits[b := used], b + 1);
    } else {
      ClearFromUpdate(bits, from + 1, b, used);
    }
  }

  lemma {:induction false} ClearFromSame(s: seq<bool>, t: seq<bool>, from: nat)
    requires |s| == |t| && from <= |s| && forall k :: from <= k < |s| ==> s[k] == t[k]
    ensures ClearFrom(s, from) == ClearFrom(t, from)
    decreases |s| - from
  {
    if from < |s| { ClearFromSame(s, t, from + 1); }
  }

  // ---------------------------------------------------------- giving back

  /** Every block that a slot other than the given ones of `ino` names is still marked used. */
  ghost predicate StillUsed(s: State, bits: seq<bool>, ino: nat, freed: set<nat>)
    requires Inv(s) && |bits| == |s.bits| && IsIno(ino)
  {
    forall i, k :: IsIno(i) && 0 <= k <= IND && Ptr(s, i, k) != 0 && !(i == ino && k in freed) ==> bits[Ptr(s, i, k)]
  }

  /** The bits of the blocks in slots `freed` of `ino` were cleared, and no other bit changed. */
  ghost predicate Cleared(s: State, bits: seq<bool>, ino: nat, freed: set<nat>)
    requires Inv(s) && |bits| == |s.bits| && IsIno(ino)
  {
    && (forall k :: k in freed ==> k <= IND && Ptr(s, ino, k) != 0 && !bits[Ptr(s, ino, k)])
    && (forall x :: 0 <= x < |bits| && bits[x] != s.bits[x] ==> s.bits[x] && InSlots(s, ino, freed, x))
  }

  /** Block `x` is named by one of the slots `freed` of `ino`. */
  ghost predicate InSlots(s: State, ino: nat, freed: set<nat>, x: nat)
    requires Inv(s) && IsIno(ino)
  {
    exists k :: k in freed && k <= IND && Ptr(s, ino, k) == x
  }

  /** The blocks in slots `freed` of `ino`, and no others, were given back, and each raises the free count by one. */
  ghost predicate GivenBack(s: State, bits: seq<bool>, ino: nat, freed: set<nat>)
    requires Inv(s) && |bits| == |s.bits| && IsIno(ino)
    ensures GivenBack(s, bits, ino, freed) ==> StillUsed(s, bits, ino, freed)
  {
    && StillUsed(s, bits, ino, freed)
    && Cleared(s, bits, ino, freed)
    && ClearFrom(bits, s.dataStart) == ClearFrom(s.bits, s.dataStart) + |freed|
  }

  lemma GivenBackNone(s: State, ino: nat)
    requires Inv(s) && IsIno(ino)
    ensures GivenBack(s, s.bits, ino, {})
  {}

  lemma FreeSlot(s: State, bits: seq<bool>, ino: nat, freed: set<nat>, k: nat)
    requires Inv(s) && |bits| == |s.bits| && IsIno(ino) && GivenBack(s, bits, ino, freed)
    requires k <= IND && k !in freed && Ptr(s, ino, k) != 0
    ensures s.dataStart <= Ptr(s, ino, k) < |s.bits| && bits[Ptr(s, ino, k)]
    ensures GivenBack(s, bits[Ptr(s, ino, k) := false], ino, freed + {k})
  {
    hide Ptr, ClearFrom;
    var b := Ptr(s, ino, k);
    assert bits[b];
    ClearFromUpdate(bits, s.dataStart, b, false);
    SlotStillUsed(s, bits, ino, freed, k);
    SlotCleared(s, bits, ino, freed, k);
  }

  lemma SlotStillUsed(s: State, bits: seq<bool>, ino: nat, freed: set<nat>, k: nat)
    requires Inv(s) && |bits| == |s.bits| && IsIno(ino) && StillUsed(s, bits, ino, freed)
    requires k <= IND && k !in freed && Ptr(s, ino, k) != 0
    ensures StillUsed(s, bits[Ptr(s, ino, k) := false], ino, freed + {k})
  {
    hide Ptr;
  }

  lemma SlotCleared(s: State, bits: seq<bool>, ino: nat, freed: set<nat>, k: nat)
    requires Inv(s) && |bits| == |s.bits| && IsIno(ino) && Cleared(s, bits, ino, freed)
    requires k <= IND && k !in freed && Ptr(s, ino, k) != 0 && bits[Ptr(s, ino, k)]
    ensures Cleared(s, bits[Ptr(s, ino, k) := false], ino, freed + {k})
  {
    hide Ptr;
    var b, more := Ptr(s, ino, k), freed + {k};
    var now := bits[b := false];
    assert InSlots(s, ino, more, b);
    forall x | 0 <= x < |now| && now[x] != s.bits[x] ensures s.bits[x] && InSlots(s, ino, more, x) {
      if x != b {
        assert bits[x] != s.bits[x];
        var m :| m in freed && m <= IND && Ptr(s, ino, m) == x;
        assert m in more;
      }
    }
    forall m | m in more ensures m <= IND && Ptr(s, ino, m) != 0 && !now[Ptr(s, ino, m)] {}
  }

  /** A block that truncation or removal is sure to reach. */
  ghost predicate MustGo(disk: seq<Block>, orig: Inode, k: nat, heapOk: bool) {
    k < MAX_BLOCKS && (heapOk || k < DIRECT) && SlotOf(disk, orig, k) != 0
  }

  /** Only blocks in slots from `lo` to `hi` were freed. */
  ghost predicate FreedOnly(disk: seq<Block>, orig: Inode, freed: set<nat>, lo: nat, hi: nat) {
    forall k :: k in freed ==> lo <= k < hi && k < MAX_BLOCKS && SlotOf(disk, orig, k) != 0
  }

  ghost predicate FreedAll(disk: seq<Block>, orig: Inode, freed: set<nat>, lo: nat, hi: nat, heapOk: bool) {
    forall k :: lo <= k < hi && MustGo(disk, orig, k, heapOk) ==> k in freed
  }

  lemma FreedNone(disk: seq<Block>, orig: Inode, lo: nat, heapOk: bool)
    ensures FreedOnly(disk, orig, {}, lo, lo) && FreedAll(disk, orig, {}, lo, lo, heapOk)
  {}

  lemma FreedBefore(disk: seq<Block>, orig: Inode, freed: set<nat>, lo: nat, b: nat)
    requires FreedOnly(disk, orig, freed, lo, b)
    ensures b !in freed
  {}

  lemma FreedBelow(disk: seq<Block>, orig: Inode, freed: set<nat>, lo: nat, hi: nat)
    requires FreedOnly(disk, orig, freed, lo, hi)
    ensures IND !in freed
  {}

  lemma FreedNext(disk: seq<Block>, orig: Inode, was: set<nat>, freed: set<nat>, lo: nat, b: nat, heapOk: bool)
    requires lo <= b && FreedOnly(disk, orig, was, lo, b) && FreedAll(disk, orig, was, lo, b, heapOk)
    requires freed == was || (freed == was + {b} && b < MAX_BLOCKS && SlotOf(disk, orig, b) != 0)
    requires MustGo(disk, orig, b, heapOk) ==> b in freed
    ensures FreedOnly(disk, orig, freed, lo, b + 1) && FreedAll(disk, orig, freed, lo, b + 1, heapOk)
  {
    hide SlotOf;
  }

  lemma FreedRest(disk: seq<Block>, orig: Inode, freed: set<nat>, lo: nat, b: nat, hi: nat, heapOk: bool)
    requires FreedOnly(disk, orig, freed, lo, b) && FreedAll(disk, orig, freed, lo, b, heapOk)
    requires (b <= hi || b == lo) && (b >= hi || (!heapOk && b >= DIRECT))
    ensures FreedOnly(disk, orig, freed, lo, hi) && FreedAll(disk, orig, freed, lo, hi, heapOk)
  {
    hide SlotOf;
  }

  /** The slots of `ino` from `lo` to `hi`, and its indirect slot if `ind`, that name a block. */
  ghost function Held(s: State, ino: nat, lo: nat, hi: nat, ind: bool): set<nat>
    requires Inv(s) && IsIno(ino)
  {
    set k | 0 <= k <= IND && Ptr(s, ino, k) != 0 && (if k < MAX_BLOCKS then lo <= k < hi else ind)
  }

  /** Those of the given slots of `ino` whose blocks are clear in `bits`. */
  ghost function Gone(s: State, bits: seq<bool>, ino: nat, slots: set<nat>): set<nat>
    requires Inv(s) && |bits| == |s.bits| && IsIno(ino)
  {
    set k | k in slots && k <= IND && (Ptr(s, ino, k) == 0 || !bits[Ptr(s, ino, k)])
  }

  /** From `s` to `u` the blocks of those slots were given back: all of them if memory allows, and
      the direct ones and the indirect block in any case. Each raises the free count by one, and no
      other bit changed. */
  ghost predicate Returned(s: State, bits: seq<bool>, ino: nat, lo: nat, hi: nat, ind: bool, heapOk: bool) {
    && Inv(s) && IsIno(ino) && |bits| == |s.bits|
    && var held := Held(s, ino, lo, hi, ind);
    && (forall k :: k in held && (heapOk || k < DIRECT || k == IND) ==> !bits[Ptr(s, ino, k)])
    && (forall x :: 0 <= x < |bits| && bits[x] != s.bits[x] ==> s.bits[x] && InSlots(s, ino, held, x))
    && ClearFrom(bits, s.dataStart) == ClearFrom(s.bits, s.dataStart) + |Gone(s, bits, ino, held)|
  }

  /** With memory, the count rises by the number of those slots. */
  lemma ReturnedCount(s: State, bits: seq<bool>, ino: nat, lo: nat, hi: nat, ind: bool)
    requires Returned(s, bits, ino, lo, hi, ind, true)
    ensures ClearFrom(bits, s.dataStart) == ClearFrom(s.bits, s.dataStart) + |Held(s, ino, lo, hi, ind)|
  {
    hide Ptr, ClearFrom;
    assert Gone(s, bits, ino, Held(s, ino, lo, hi, ind)) == Held(s, ino, lo, hi, ind);
  }

  /** What the loops of truncation and removal freed is what they had to free. */
  lemma AllReturned(s: State, bits: seq<bool>, ino: nat, slots: set<nat>, freed: set<nat>, lo: nat, hi: nat, ind: bool,
                    heapOk: bool)
    requires Inv(s) && IsIno(ino) && |bits| == |s.bits| && GivenBack(s, bits, ino, freed)
    requires FreedOnly(s.disk, InodeOf(s, ino), slots, lo, hi)
    requires FreedAll(s.disk, InodeOf(s, ino), slots, lo, hi, heapOk)
    requires freed == if ind && Ptr(s, ino, IND) != 0 then slots + {IND} else slots
    ensures Returned(s, bits, ino, lo, hi, ind, heapOk)
  {
    hide ClearFrom, SlotOf, StillUsed, Cleared, Held, FreedOnly, FreedAll, Ptr, Inv, Gone;
    var held := Held(s, ino, lo, hi, ind);
    FreedIsRange(s, ino, slots, freed, lo, hi, ind, heapOk);
    FreedAreHeld(s, bits, ino, freed, held);
    FreedAreGone(s, bits, ino, freed, held);
  }

  lemma FreedIsRange(s: State, ino: nat, slots: set<nat>, freed: set<nat>, lo: nat, hi: nat, ind: bool, heapOk: bool)
    requires Inv(s) && IsIno(ino)
    requires FreedOnly(s.disk, InodeOf(s, ino), slots, lo, hi)
    requires FreedAll(s.disk, InodeOf(s, ino), slots, lo, hi, heapOk)
    requires freed == if ind && Ptr(s, ino, IND) != 0 then slots + {IND} else slots
    ensures freed <= Held(s, ino, lo, hi, ind)
    ensures forall k :: k in Held(s, ino, lo, hi, ind) ==> k <= IND && Ptr(s, ino, k) != 0
    ensures forall k :: k in Held(s, ino, lo, hi, ind) && (heapOk || k < DIRECT || k == IND) ==> k in freed
  {
    hide SlotOf, Inv;
    var held := Held(s, ino, lo, hi, ind);
    forall k | k in freed ensures k in held {}
    forall k | k in held && (heapOk || k < DIRECT || k == IND) ensures k in freed {
      assert k < MAX_BLOCKS ==> MustGo(s.disk, InodeOf(s, ino), k, heapOk);
    }
  }

  lemma FreedAreHeld(s: State, bits: seq<bool>, ino: nat, freed: set<nat>, held: set<nat>)
    requires Inv(s) && IsIno(ino) && |bits| == |s.bits| && Cleared(s, bits, ino, freed) && freed <= held
    ensures forall k :: k in freed ==> k <= IND && Ptr(s, ino, k) != 0 && !bits[Ptr(s, ino, k)]
    ensures forall x :: 0 <= x < |bits| && bits[x] != s.bits[x] ==> s.bits[x] && InSlots(s, ino, held, x)
  {
    hide Ptr, Inv;
  }

  lemma FreedAreGone(s: State, bits: seq<bool>, ino: nat, freed: set<nat>, held: set<nat>)
    requires Inv(s) && IsIno(ino) && |bits| == |s.bits| && GivenBack(s, bits, ino, freed) && freed <= held
    requires forall k :: k in held ==> k <= IND && Ptr(s, ino, k) != 0
    ensures Gone(s, bits, ino, held) == freed
  {
    hide Ptr, Inv, ClearFrom;
  }

  /** Inode `ino` gave up the slots in `freed` (and perhaps more), and its
      indirect block may have been rewritten to say so. */
  ghost predicate GaveUp(s: State, t: State, ino: nat, freed: set<nat>)
    requires Inv(s) && IsIno(ino)
  {
    && Shape(t) && t.dataStart == s.dataStart && |t.disk| == |s.disk|
    && GivenBack(s, t.bits, ino, freed)
    && (forall i :: IsIno(i) && i != ino ==> InodeOf(t, i) == InodeOf(s, i))
    && (forall b :: 0 <= b < |s.disk| && s.dataStart <= b && b != Ptr(s, ino, IND) ==> t.disk[b] == s.disk[b])
    && (forall k :: 0 <= k <= IND ==> Ptr(t, ino, k) == 0 || (k !in freed && Ptr(t, ino, k) == Ptr(s, ino, k)))
  }

  lemma GaveUpInv(s: State, t: State, ino: nat, freed: set<nat>)
    requires Inv(s) && IsIno(ino) && GaveUp(s, t, ino, freed)
    ensures Inv(t)
    ensures forall i, k :: IsIno(i) && i != ino && 0 <= k ==> BlockAt(t, i, k) == BlockAt(s, i, k)
    ensures forall k :: 0 <= k < MAX_BLOCKS && Ptr(t, ino, k) != 0 ==> BlockAt(t, ino, k) == BlockAt(s, ino, k)
  {
    forall i, k | IsIno(i) && i != ino && 0 <= k <= IND ensures Ptr(t, i, k) == Ptr(s, i, k) {
      assert Ptr(s, i, IND) == InodeOf(s, i).indirect;
      assert Ptr(s, i, IND) != 0 ==> Ptr(s, i, IND) != Ptr(s, ino, IND);
    }
    ShrinkInv(s, t);
    forall i, k | IsIno(i) && i != ino && 0 <= k ensures BlockAt(t, i, k) == BlockAt(s, i, k) {
      if k < MAX_BLOCKS && Ptr(s, i, k) != 0 { assert Ptr(s, i, k) != Ptr(s, ino, IND); }
    }
    forall k | 0 <= k < MAX_BLOCKS && Ptr(t, ino, k) != 0 ensures BlockAt(t, ino, k) == BlockAt(s, ino, k) {
      assert Ptr(s, ino, k) != Ptr(s, ino, IND);
    }
  }
}
