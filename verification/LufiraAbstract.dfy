/** The abstract file system: a tree of names and, for each file, its size and its bytes,
    those past the end included. Every operation has one exact meaning here. */
module LufiraAbstract {
  import opened LufiraFormat
  import opened LufiraState
  import opened LufiraContent
  import opened LufiraDirs
  import opened LufiraTree
  import opened LufiraNamespace

  datatype Op =
    | Make(parent: U32, name: Name, isDir: bool, uid: U32, gid: U32, perm: U32)
    | Remove(parent: U32, name: Name)
    | Store(ino: U32, offset: U32, data: seq<Byte>)
    | Resize(ino: U32, size: U32)
    | Flush

  /** An operation and its luck with memory: whether the `kmalloc`s of the scans that guard
      the tree succeed, and whether all others do. */
  datatype Act = Act(op: Op, scanOk: bool, heapOk: bool)

  const SPACE: nat := 0x1_0000_0000

  /** `raw` are the bytes at all 32-bit positions, also those past the end. */
  datatype File = File(size: nat, raw: seq<Byte>)

  ghost predicate FileOk(f: File) { |f.raw| == SPACE && f.size < SPACE }

  function Text(f: File): (c: seq<Byte>)
    requires f.size <= |f.raw|
    ensures |c| == f.size
  {
    f.raw[..f.size]
  }

  /** Names, files, whether a data block is left, and the directories that cannot grow. */
  datatype Abs = Abs(tree: Tree, files: map<nat, File>, full: bool, maxed: set<nat>)

  ghost predicate AbsOk(a: Abs) { a.files.Keys == a.tree.files && forall i :: i in a.files ==> FileOk(a.files[i]) }

  // ------------------------------------------------------------ effects

  predicate Same(a: Abs, b: Abs) { b.tree == a.tree && b.files == a.files }

  /** A name that may be added: a directory without it. */
  ghost predicate Addable(t: Tree, parent: nat, name: Name) {
    parent in t.dirs && NameOk(name) && To(t, parent, name) == 0
  }

  ghost predicate Makes(a: Abs, b: Abs, parent: nat, name: Name, ino: nat, isDir: bool) {
    && Addable(a.tree, parent, name) && !Live(a.tree, ino)
    && b.tree == Created(a.tree, parent, name, ino, isDir)
    && b.files == if isDir then a.files else a.files[ino := NewFile()]
  }

  function NewFile(): File { File(0, seq(SPACE, _ => 0)) }

  /** Why making an addable name can fail: no memory, no block, no inode, no room. */
  ghost predicate MakeFails(act: Act, a: Abs, b: Abs, parent: nat) {
    !act.heapOk || b.full || parent in a.maxed || forall i :: IsIno(i) ==> Live(a.tree, i)
  }

  function Patch(raw: seq<Byte>, offset: nat, d: seq<Byte>): seq<Byte> {
    seq(|raw|, p requires 0 <= p < |raw| => if offset <= p < offset + |d| then d[p - offset] else raw[p])
  }

  /** The file after `d` was stored at `offset`. */
  function Overlaid(f: File, offset: nat, d: seq<Byte>): File {
    File(if offset + |d| > f.size then offset + |d| else f.size, Patch(f.raw, offset, d))
  }

  ghost predicate Stores(a: Abs, b: Abs, ino: nat, offset: nat, data: seq<Byte>, n: nat)
    requires ino in a.files
  {
    n <= |data| && b.tree == a.tree && b.files == a.files[ino := Overlaid(a.files[ino], offset, data[..n])]
  }

  /** The file after a truncation: bytes before the new last block's end stay; bytes of blocks
      past it are zero, or stay where they could not be reached. */
  ghost predicate Trimmed(f: File, g: File, n: U32, heapOk: bool) {
    && FileOk(g) && g.size == n && |f.raw| == SPACE
    && (forall p :: 0 <= p < SPACE ==>
          g.raw[p] == f.raw[p] || (n < f.size && NBlocks(n) <= p / BLOCK_SIZE && g.raw[p] == 0))
    && (n < f.size < SPACE ==>
          forall p :: 0 <= p < SPACE && Freed(n, f.size, p / BLOCK_SIZE, heapOk) ==> g.raw[p] == 0)
  }

  /** The blocks that a cut from `size` to `n` bytes is sure to give back. */
  predicate Freed(n: U32, size: U32, k: nat, heapOk: bool) {
    || (NBlocks(n) <= k < NBlocks(size) && (heapOk || k < DIRECT))
    || (NBlocks(n) == 0 && DIRECT <= k)
  }

  /** The effect of an action on what a user sees, when `x` is the inode that it makes or
      removes. Nothing is left open but whether a want of space or memory made the operation
      fail or stop early, and what became of unreachable bytes past the end. */
  ghost predicate Allowed(act: Act, a: Abs, b: Abs, x: nat) {
    match act.op
    case Make(parent, name, isDir, _, _, _) =>
      || Makes(a, b, parent, name, x, isDir)
      || (Same(a, b) && (Addable(a.tree, parent, name) ==> MakeFails(act, a, b, parent)))
    case Remove(parent, name) =>
      if parent in a.tree.dirs && Removable(a.tree, parent, name) then
        || (Removes(a, b, parent, name) && x == To(a.tree, parent, name))
        || (Same(a, b) && !(act.heapOk && act.scanOk))
      else Same(a, b)
    case Store(ino, offset, data) =>
      if ino in a.files && offset + |data| <= MAX_FILE_SIZE then
        || (exists n: nat :: Stores(a, b, ino, offset, data, n) && (n == |data| || b.full || !act.heapOk))
        || (Same(a, b) && !act.heapOk)
      else Same(a, b)
    case Resize(ino, size) =>
      if ino in a.files then
        b.tree == a.tree && ino in b.files && b.files == a.files[ino := b.files[ino]]
        && Trimmed(a.files[ino], b.files[ino], size, act.heapOk)
      else Same(a, b)
    case Flush => Same(a, b)
  }

  ghost predicate Removes(a: Abs, b: Abs, parent: nat, name: Name)
    requires parent in a.tree.dirs
  {
    b.tree == Removed(a.tree, parent, name) && b.files == a.files - {To(a.tree, parent, name)}
  }

  /** The actions that can destroy the tree: a name made in an inode that is no directory, or
      although it exists because the check could not read the directory; a removal whose scans
      could not read a directory, or one of the entry dot in an empty directory. */
  ghost predicate Hazard(act: Act, t: Tree) {
    match act.op
    case Make(parent, name, isDir, _, _, _) =>
      NameOk(name) && IsIno(parent) && (parent !in t.dirs || (To(t, parent, name) != 0 && !act.scanOk))
    case Remove(parent, name) =>
      && To(t, parent, name) != 0 && To(t, parent, name) != ROOT
      && (!act.scanOk || (!Plain(name) && To(t, parent, name) == parent && Empty(t, parent)))
    case _ => false
  }

  /** A run of the abstract file system over the first actions of `acts`. */
  ghost predicate AbstractRun(acts: seq<Act>, xs: seq<nat>, trace: seq<Abs>) {
    && 1 <= |trace| <= |acts| + 1 && |xs| == |acts|
    && forall n :: 0 <= n < |trace| - 1 ==> Allowed(acts[n], trace[n], trace[n + 1], xs[n])
  }

  // ------------------------------------------- files with nothing past the end

  /** Nothing but zeros past the end. */
  ghost predicate Neat(f: File) {
    FileOk(f) && f.size <= MAX_FILE_SIZE && forall p :: f.size <= p < SPACE ==> f.raw[p] == 0
  }

  ghost predicate AllNeat(a: Abs)
    ensures AllNeat(a) ==> AbsOk(a)
  {
    a.files.Keys == a.tree.files && forall i :: i in a.files ==> Neat(a.files[i])
  }

  /** A store is the zero-filled overwrite of the text exactly when the gap was zero. */
  lemma StoredText(f: File, offset: nat, d: seq<Byte>)
    requires FileOk(f) && offset + |d| <= MAX_FILE_SIZE
    ensures FileOk(Overlaid(f, offset, d))
    ensures Text(Overlaid(f, offset, d)) == Overwrite(Text(f), offset, d)
            <==> forall p :: f.size <= p < offset ==> f.raw[p] == 0
  {
    var g := Overlaid(f, offset, d);
    var t, o := Text(g), Overwrite(Text(f), offset, d);
    assert |t| == |o|;
    if forall p :: f.size <= p < offset ==> f.raw[p] == 0 {
      assert t == o;
    }
    if t == o {
      forall p | f.size <= p < offset ensures f.raw[p] == 0 { assert t[p] == o[p]; }
    }
  }

  lemma StoredNeat(f: File, offset: nat, d: seq<Byte>)
    requires Neat(f) && offset + |d| <= MAX_FILE_SIZE
    ensures Neat(Overlaid(f, offset, d)) && Text(Overlaid(f, offset, d)) == Overwrite(Text(f), offset, d)
  {
    StoredText(f, offset, d);
  }

  /** The rest of the last block kept by a cut to `n` bytes. */
  ghost predicate RestZero(f: File, n: nat)
    requires FileOk(f)
  {
    forall p :: n <= p < f.size && p < (n + BLOCK_SIZE - 1) / BLOCK_SIZE * BLOCK_SIZE ==> f.raw[p] == 0
  }

  /** A cut leaves nothing past the new end exactly when that rest was zero. */
  lemma TrimmedNeat(f: File, g: File, n: U32, heapOk: bool)
    requires Neat(f) && Trimmed(f, g, n, heapOk) && n <= MAX_FILE_SIZE && (heapOk || n == 0)
    ensures Neat(g) <==> RestZero(f, n)
    ensures n == 0 ==> RestZero(f, n)
    ensures Text(g) == if n <= f.size then Text(f)[..n] else Overwrite(Text(f), n, [])
  {
    TrimmedText(f, g, n, heapOk);
    forall p | n <= p < SPACE ensures g.raw[p] == if p < NBlocks(n) * BLOCK_SIZE then f.raw[p] else 0 {
      TrimmedByte(f, g, n, heapOk, p);
    }
    assert NBlocks(n) * BLOCK_SIZE == (n + BLOCK_SIZE - 1) / BLOCK_SIZE * BLOCK_SIZE;
    hide Trimmed, NBlocks;
    if Neat(g) {
      forall p | n <= p < f.size && p < (n + BLOCK_SIZE - 1) / BLOCK_SIZE * BLOCK_SIZE ensures f.raw[p] == 0 {
        assert g.raw[p] == f.raw[p];
      }
    }
  }

  lemma TrimmedByte(f: File, g: File, n: U32, heapOk: bool, p: nat)
    requires Neat(f) && Trimmed(f, g, n, heapOk) && n <= MAX_FILE_SIZE && (heapOk || n == 0) && n <= p < SPACE
    ensures g.raw[p] == if p < NBlocks(n) * BLOCK_SIZE then f.raw[p] else 0
  {
    var k := p / BLOCK_SIZE;
    assert p < NBlocks(n) * BLOCK_SIZE <==> k < NBlocks(n);
    if k >= NBlocks(n) && n < f.size {
      if k < NBlocks(f.size) { assert Freed(n, f.size, k, heapOk); } else { assert p >= f.size; }
    }
  }

  lemma TrimmedText(f: File, g: File, n: U32, heapOk: bool)
    requires FileOk(f) && Trimmed(f, g, n, heapOk) && n <= MAX_FILE_SIZE && Neat(f)
    ensures Text(g) == if n <= f.size then Text(f)[..n] else Overwrite(Text(f), n, [])
  {
    forall p | 0 <= p < n ensures g.raw[p] == f.raw[p] { assert p / BLOCK_SIZE < NBlocks(n); }
  }

  /** A cut that leaves nothing past the end. */
  ghost predicate Gentle(act: Act, a: Abs) {
    act.op.Resize? && act.op.ino in a.files && FileOk(a.files[act.op.ino]) ==>
      && act.op.size <= MAX_FILE_SIZE && (act.heapOk || act.op.size == 0)
      && RestZero(a.files[act.op.ino], act.op.size)
  }

  /** What an action does to the text of the file it names. */
  ghost predicate TextStep(act: Act, a: Abs, b: Abs)
    requires AbsOk(a) && AbsOk(b)
  {
    match act.op
    case Store(ino, offset, data) =>
      ino in a.files && offset + |data| <= MAX_FILE_SIZE ==>
        ino in b.files && TextStored(Text(a.files[ino]), Text(b.files[ino]), offset, data, b.full, act.heapOk)
    case Resize(ino, size) =>
      ino in a.files ==> ino in b.files && Text(b.files[ino]) == Resized(Text(a.files[ino]), size)
    case _ => forall i :: i in a.files && i in b.files ==> Text(b.files[i]) == Text(a.files[i])
  }

  ghost predicate TextStored(c: seq<Byte>, d: seq<Byte>, offset: nat, data: seq<Byte>, full: bool, heapOk: bool) {
    || (exists n: nat :: n <= |data| && (n == |data| || full || !heapOk) && d == Overwrite(c, offset, data[..n]))
    || (d == c && !heapOk)
  }

  function Resized(c: seq<Byte>, n: nat): seq<Byte> { if n <= |c| then c[..n] else Overwrite(c, n, []) }

  lemma NewNeat()
    ensures Neat(NewFile())
  {}

  lemma NeatMade(act: Act, a: Abs, b: Abs, x: nat)
    requires AllNeat(a) && act.op.Make? && Allowed(act, a, b, x)
    ensures AllNeat(b) && TextStep(act, a, b)
  {
    hide Addable, MakeFails, Neat, NewFile;
    var m := act.op;
    NewNeat();
  }

  lemma NeatStored(act: Act, a: Abs, b: Abs, x: nat)
    requires AllNeat(a) && act.op.Store? && Allowed(act, a, b, x)
    ensures AllNeat(b) && TextStep(act, a, b)
  {
    hide Neat, Overwrite, Overlaid, Text;
    var m := act.op;
    if m.ino in a.files && m.offset + |m.data| <= MAX_FILE_SIZE && !(Same(a, b) && !act.heapOk) {
      var n: nat :| Stores(a, b, m.ino, m.offset, m.data, n) && (n == |m.data| || b.full || !act.heapOk);
      StoredNeat(a.files[m.ino], m.offset, m.data[..n]);
    }
  }

  lemma NeatResized(act: Act, a: Abs, b: Abs, x: nat)
    requires AllNeat(a) && act.op.Resize? && Allowed(act, a, b, x) && Gentle(act, a)
    ensures AllNeat(b) && TextStep(act, a, b)
  {
    hide Neat, Overwrite, Text, Trimmed, RestZero;
    var m := act.op;
    if m.ino in a.files { TrimmedNeat(a.files[m.ino], b.files[m.ino], m.size, act.heapOk); }
  }

  /** While every cut is gentle, nothing lingers past the end of a file, a store overwrites
      the text, zero-filled, and a cut takes a prefix or zero-fills. */
  lemma NeatStep(act: Act, a: Abs, b: Abs, x: nat)
    requires AllNeat(a) && Allowed(act, a, b, x) && Gentle(act, a)
    ensures AllNeat(b) && TextStep(act, a, b)
  {
    match act.op
    case Make(_, _, _, _, _, _) => NeatMade(act, a, b, x);
    case Store(_, _, _) => NeatStored(act, a, b, x);
    case Resize(_, _) => NeatResized(act, a, b, x);
    case Remove(parent, name) => hide Neat, Removable, To;
    case Flush =>
  }

  ghost predicate NeatAt(act: Act, trace: seq<Abs>, k: nat) {
    k + 1 < |trace| && AllNeat(trace[k]) && AllNeat(trace[k + 1]) && TextStep(act, trace[k], trace[k + 1])
  }

  /** Over whole runs. */
  lemma {:induction false} NeatRun(acts: seq<Act>, xs: seq<nat>, trace: seq<Abs>, n: nat)
    requires AbstractRun(acts, xs, trace) && AllNeat(trace[0]) && n < |trace|
    requires forall k :: 0 <= k < n ==> Gentle(acts[k], trace[k])
    ensures AllNeat(trace[n])
    ensures forall k :: 0 <= k < n ==> NeatAt(acts[k], trace, k)
  {
    hide Allowed, AllNeat, Gentle, TextStep;
    if n > 0 {
      NeatRun(acts, xs, trace, n - 1);
      NeatStep(acts[n - 1], trace[n - 1], trace[n], xs[n - 1]);
    }
  }
}
