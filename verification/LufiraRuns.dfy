/** Whole runs of the volume: any sequence of operations, in any order, with any arguments and
    any luck with memory. Names come from `lufirafs_resolve_parent`, and writes and truncations
    of directories are refused by the VFS; nothing else is guarded. */
module LufiraRuns {
  import opened LufiraFormat
  import opened LufiraMeta
  import opened LufiraState
  import opened LufiraContent
  import opened LufiraDirs
  import opened LufiraTree
  import opened LufiraNamespace
  import opened LufiraHazards
  import opened LufiraAbstract
  import opened LufiraVolume
  import opened LufiraCount
  import opened LufiraFresh

  // ------------------------------------------------- what a volume means

  ghost function FileOf(s: State, i: nat): (f: File)
    requires Shape(s) && IsIno(i)
    ensures FileOk(f) && f.size == InodeOf(s, i).size && forall p :: 0 <= p < SPACE ==> f.raw[p] == ByteAt(s, i, p)
  {
    File(InodeOf(s, i).size, seq(SPACE, p requires 0 <= p < SPACE => ByteAt(s, i, p)))
  }

  ghost predicate Readable(s: State, t: Tree) { Shape(s) && forall x :: x in t.files ==> IsIno(x) }

  ghost function Meaning(s: State, t: Tree): (a: Abs)
    requires Readable(s, t)
    ensures a.tree == t && a.files.Keys == t.files && a.full == Full(s) && AbsOk(a)
  {
    Abs(t, map i | i in t.files :: FileOf(s, i), Full(s), set d | d in t.dirs && IsIno(d) && DirMaxed(s, d))
  }

  lemma DepictsReadable(s: State, t: Tree)
    requires Depicts(s, t)
    ensures Readable(s, t)
    ensures forall i :: i in t.dirs <==> IsIno(i) && InodeOf(s, i).mode == MODE_DIR
    ensures forall i :: i in t.files <==> IsIno(i) && InodeOf(s, i).mode == MODE_FILE
  {
    hide Represents, Dotted, Closed, NamedOnce;
  }

  /** The text of a file is what `lufirafs_read` returns. */
  lemma TextIsContent(s: State, t: Tree, i: nat)
    requires Readable(s, t) && i in t.files
    ensures Text(Meaning(s, t).files[i]) == Content(s, i)
  {}

  /** On a tidy volume every file is neat. */
  lemma TidyIsNeat(s: State, t: Tree)
    requires Depicts(s, t) && Tidy(s)
    ensures Readable(s, t) && AllNeat(Meaning(s, t))
  {
    hide Depicts;
    DepictsReadable(s, t);
    forall i | i in t.files ensures Neat(FileOf(s, i)) { assert TailZero(s, i); }
  }

  lemma SameFile(s: State, u: State, i: nat)
    requires Shape(s) && Shape(u) && IsIno(i) && InodeOf(u, i).size == InodeOf(s, i).size
    requires forall p :: 0 <= p ==> ByteAt(u, i, p) == ByteAt(s, i, p)
    ensures FileOf(u, i) == FileOf(s, i)
  {
    hide ByteAt;
    assert FileOf(u, i).raw == FileOf(s, i).raw;
  }

  lemma KeptMeans(s: State, u: State, touched: set<nat>, i: nat)
    requires Shape(s) && Shape(u) && Kept(s, u, touched) && IsIno(i) && i !in touched
    ensures FileOf(u, i) == FileOf(s, i)
  {
    hide Kept, FileOf;
    KeptFile(s, u, touched, i);
    SameFile(s, u, i);
  }

  /** Changes outside the regular files mean nothing. */
  lemma SameMeaning(s: State, u: State, t: Tree, touched: set<nat>)
    requires Readable(s, t) && Shape(u) && Kept(s, u, touched) && forall x :: x in touched ==> x !in t.files
    ensures Readable(u, t) && Same(Meaning(s, t), Meaning(u, t))
  {
    hide Kept, FileOf;
    forall i | i in t.files ensures FileOf(u, i) == FileOf(s, i) { KeptMeans(s, u, touched, i); }
    assert Meaning(u, t).files == Meaning(s, t).files;
  }

  lemma NewMeans(u: State, ino: nat)
    requires Shape(u) && IsIno(ino) && InodeOf(u, ino).size == 0 && Blank(u, ino)
    ensures FileOf(u, ino) == NewFile()
  {
    forall p | 0 <= p < SPACE ensures ByteAt(u, ino, p) == 0 { assert BlockAt(u, ino, p / BLOCK_SIZE) == ZeroBlock(); }
    hide ByteAt;
    assert FileOf(u, ino).raw == NewFile().raw;
  }

  lemma MakeMeans(s: State, u: State, t: Tree, t': Tree, parent: nat, name: Name, ino: nat, isDir: bool)
    requires Readable(s, t) && Readable(u, t') && Kept(s, u, {ino, parent}) && IsIno(ino)
    requires Addable(t, parent, name) && parent !in t.files && !Live(t, ino)
    requires t' == Created(t, parent, name, ino, isDir)
    requires !isDir ==> InodeOf(u, ino).size == 0 && Blank(u, ino)
    ensures Makes(Meaning(s, t), Meaning(u, t'), parent, name, ino, isDir)
  {
    hide Kept, FileOf, Blank, NewFile, Addable;
    if !isDir { NewMeans(u, ino); }
    forall i | i in t.files ensures FileOf(u, i) == FileOf(s, i) { KeptMeans(s, u, {ino, parent}, i); }
    assert t'.files == if isDir then t.files else t.files + {ino};
    hide Created;
    var a, b := Meaning(s, t).files, Meaning(u, t').files;
    if isDir { assert b == a; } else { assert b == a[ino := NewFile()]; }
  }

  lemma RemoveMeans(s: State, u: State, t: Tree, t': Tree, parent: nat, name: Name)
    requires Readable(s, t) && Readable(u, t') && parent in t.dirs && parent !in t.files
    requires Kept(s, u, {To(t, parent, name), parent}) && t' == Removed(t, parent, name)
    ensures Removes(Meaning(s, t), Meaning(u, t'), parent, name)
  {
    hide Kept, FileOf, To;
    assert t'.files == t.files - {To(t, parent, name)};
    forall i | i in t'.files ensures FileOf(u, i) == FileOf(s, i) { KeptMeans(s, u, {To(t, parent, name), parent}, i); }
    assert Meaning(u, t').files == Meaning(s, t).files - {To(t, parent, name)};
  }

  lemma OneFile(s: State, u: State, t: Tree, ino: nat)
    requires Readable(s, t) && Shape(u) && OthersSame(s, u, ino)
    ensures Readable(u, t) && Meaning(u, t).tree == t
    ensures Meaning(u, t).files ==
            if ino in t.files then Meaning(s, t).files[ino := FileOf(u, ino)] else Meaning(s, t).files
  {
    hide FileOf, BlockAt;
    assert Kept(s, u, {ino});
    hide Kept, OthersSame;
    forall i | i in t.files && i != ino ensures FileOf(u, i) == FileOf(s, i) { KeptMeans(s, u, {ino}, i); }
    var a, b := Meaning(s, t).files, Meaning(u, t).files;
    if ino in t.files { assert b == a[ino := FileOf(u, ino)]; } else { assert b == a; }
  }

  lemma StoreMeans(s: State, u: State, t: Tree, ino: nat, offset: nat, data: seq<Byte>, n: nat)
    requires Readable(s, t) && ino in t.files && n <= |data| && Wrote(s, u, ino, offset, data[..n])
    ensures Readable(u, t) && Stores(Meaning(s, t), Meaning(u, t), ino, offset, data, n)
  {
    hide BlockAt;
    var f, d := FileOf(s, ino), data[..n];
    assert FileOf(u, ino).raw == Patch(f.raw, offset, d);
    hide FileOf;
    OneFile(s, u, t, ino);
  }

  lemma CutMeans(s: State, u: State, t: Tree, ino: nat, n: U32, heapOk: bool)
    requires Readable(s, t) && ino in t.files && IsIno(ino) && Cut(s, u, ino, n, heapOk)
    ensures Trimmed(FileOf(s, ino), FileOf(u, ino), n, heapOk)
  {
    hide OthersSame, BlockAt, Inv, FileOf, NBlocks;
    var f, g, size := FileOf(s, ino), FileOf(u, ino), InodeOf(s, ino).size;
    forall p | 0 <= p < SPACE
      ensures g.raw[p] == f.raw[p] || (n < size && NBlocks(n) <= p / BLOCK_SIZE && g.raw[p] == 0)
      ensures n < size && Freed(n, size, p / BLOCK_SIZE, heapOk) ==> g.raw[p] == 0
    {
      var k := p / BLOCK_SIZE;
      assert || BlockAt(u, ino, k) == BlockAt(s, ino, k)
             || (n < size && NBlocks(n) <= k && BlockAt(u, ino, k) == ZeroBlock());
      assert n < size && Freed(n, size, k, heapOk) ==> BlockAt(u, ino, k) == ZeroBlock();
      assert ZeroBlock()[p % BLOCK_SIZE] == 0;
    }
  }

  // ----------------------------------------------------------- what is saved

  /** The inodes whose records an operation may store, when `x` is the inode it made or removed. */
  function Touched(op: Op, x: nat): set<nat> {
    match op
    case Make(parent, _, _, _, _, _) => {x, parent as nat}
    case Remove(parent, name) => {x}
    case Store(ino, offset, data) => {ino as nat}
    case Resize(ino, size) => {ino as nat}
    case Flush => {}
  }

  /** Blocks that `sync` can miss: those it could miss before, and the second blocks of the
      straddling inodes in `touched`. */
  ghost predicate SpillOnly(g: Geometry, before: set<nat>, after: set<nat>, touched: set<nat>) {
    forall b :: b in after ==> b in before || exists i :: i in touched && b in Spill(g, i)
  }

  /** All metadata but the blocks in `stale` is on disk. */
  ghost predicate SavedBut(fs: LufiraFs)
    requires fs.Layout()
    reads fs, fs.image
  {
    forall b :: 0 <= b < fs.DataStart() && b !in fs.stale ==> OnDisk(fs.image[..], fs.disk[b], b)
  }

  /** What an action spills. */
  ghost predicate SpillsAt(g: Geometry, act: Act, x: nat, b: nat) {
    exists i :: i in Touched(act.op, x) && b in Spill(g, i)
  }

  /** The same over a run whose actions made or removed the inodes `xs`. */
  ghost predicate SpillRun(g: Geometry, before: set<nat>, after: set<nat>, acts: seq<Act>, xs: seq<nat>) {
    && |xs| <= |acts|
    && forall b :: b in after ==> b in before || exists n :: 0 <= n < |xs| && SpillsAt(g, acts[n], xs[n], b)
  }

  /** No action stored a straddling inode. */
  ghost predicate AllWhole(acts: seq<Act>, xs: seq<nat>)
    requires |xs| <= |acts|
  {
    forall n, i :: 0 <= n < |xs| && i in Touched(acts[n].op, xs[n]) ==> Whole(i)
  }

  lemma SpillStart(g: Geometry, stale: set<nat>, acts: seq<Act>)
    ensures SpillRun(g, stale, stale, acts, [])
  {}

  lemma SpillNext(g: Geometry, a: set<nat>, b: set<nat>, c: set<nat>, acts: seq<Act>, xs: seq<nat>, x: nat)
    requires SpillRun(g, a, b, acts, xs) && |xs| < |acts| && SpillOnly(g, b, c, Touched(acts[|xs|].op, x))
    ensures SpillRun(g, a, c, acts, xs + [x])
  {
    hide Spill, Touched;
    forall y | y in c && y !in a ensures exists n :: 0 <= n < |xs + [x]| && SpillsAt(g, acts[n], (xs + [x])[n], y) {
      if y in b {
        var n :| 0 <= n < |xs| && SpillsAt(g, acts[n], xs[n], y);
        assert (xs + [x])[n] == xs[n];
      } else {
        assert SpillsAt(g, acts[|xs|], (xs + [x])[|xs|], y);
      }
    }
  }

  lemma NoSpill(g: Geometry, after: set<nat>, acts: seq<Act>, xs: seq<nat>)
    requires SpillRun(g, {}, after, acts, xs) && AllWhole(acts, xs)
    ensures after == {}
  {
    hide Touched;
    forall n, b | 0 <= n < |xs| ensures !SpillsAt(g, acts[n], xs[n], b) {}
  }

  lemma SpillTwo(g: Geometry, before: set<nat>, after: set<nat>, i: nat, j: nat)
    requires after <= before + Spill(g, i) + Spill(g, j)
    ensures SpillOnly(g, before, after, {i, j})
  {
    hide Spill;
    forall b | b in after && b !in before ensures exists x :: x in {i, j} && b in Spill(g, x) {
      assert b in Spill(g, i) || b in Spill(g, j);
    }
  }

  // ---------------------------------------------------------------- one step

  /** On a volume with a tree, a step is a step of the abstract file system, or it is one of
      the hazards and leaves no tree. */
  ghost predicate Simulates(act: Act, s: State, t: Tree, s': State, t': Tree, kept: bool, x: nat) {
    Depicts(s, t) ==>
      && Readable(s, t)
      && (kept ==> Depicts(s', t') && Readable(s', t') && Allowed(act, Meaning(s, t), Meaning(s', t'), x))
      && (!kept ==> Broken(s') && Hazard(act, t))
  }

  ghost predicate SameOwners(s: State, u: State, x: nat)
    requires Shape(s) && Shape(u)
  {
    forall i :: IsIno(i) && i != x ==> SameOwner(InodeOf(u, i), InodeOf(s, i))
  }

  /** What a step does to the inode records and to the blocks in use, on any volume. Only a new
      inode gets an owner, permissions and links, those of the call; only a removed one loses
      them, and its blocks are given back; a cut gives back the blocks past the new end. */
  ghost predicate Ledger(act: Act, s: State, u: State, x: nat) {
    && Shape(s) && Shape(u)
    && match act.op
       case Make(_, _, isDir, uid, gid, perm) =>
         || u.inodes == s.inodes
         || (&& IsIno(x) && InodeOf(s, x).mode == MODE_FREE && SameOwners(s, u, x)
             && (|| InodeOf(u, x) == FreeInode()
                 || Born(InodeOf(u, x), if isDir then MODE_DIR else MODE_FILE, uid, gid, perm)))
       case Remove(_, _) =>
         || (u.inodes == s.inodes && u.bits == s.bits)
         || (IsIno(x) && u.inodes == s.inodes[x - 1 := FreeInode()] && Emptied(s, u.bits, x, act.heapOk))
       case Store(_, _, _) => SameOwners(s, u, 0)
       case Resize(ino, size) =>
         && SameOwners(s, u, 0)
         && if IsIno(ino) && InodeOf(s, ino).mode != MODE_DIR then CutBack(s, u.bits, ino, size, act.heapOk)
            else u == s
       case Flush => u.inodes == s.inodes && u.bits == s.bits
  }

  lemma MadeOwners(s: State, u: State, x: nat, parent: nat)
    requires Shape(s) && Shape(u) && IsIno(parent) && Kept(s, u, {x, parent})
    requires parent != x ==> SameOwner(InodeOf(u, parent), InodeOf(s, parent))
    ensures SameOwners(s, u, x)
  {
    hide Kept;
    forall i | IsIno(i) && i != x && i != parent ensures InodeOf(u, i) == InodeOf(s, i) {
      KeptFile(s, u, {x, parent}, i);
    }
  }

  lemma UndoneOwners(s: State, u: State, x: nat)
    requires Shape(s) && Shape(u) && Kept(s, u, {x})
    ensures SameOwners(s, u, x)
  {
    hide Kept;
    forall i | IsIno(i) && i != x ensures InodeOf(u, i) == InodeOf(s, i) { KeptFile(s, u, {x}, i); }
  }

  lemma StoreOwners(s: State, u: State, ino: nat, offset: nat, d: seq<Byte>)
    requires Shape(s) && IsIno(ino) && Wrote(s, u, ino, offset, d)
    ensures SameOwners(s, u, 0)
  {
    hide BlockAt, ByteAt;
  }

  lemma CutOwners(s: State, u: State, ino: nat, n: U32, heapOk: bool)
    requires Shape(s) && IsIno(ino) && Cut(s, u, ino, n, heapOk)
    ensures SameOwners(s, u, 0)
  {
    hide BlockAt, NBlocks;
  }

  lemma NoTree(act: Act, s: State, t: Tree, u: State, x: nat)
    requires !Depicts(s, t)
    ensures Simulates(act, s, t, u, t, true, x)
  {}

  lemma NotMade(act: Act, s: State, t: Tree)
    requires act.op.Make? && (act.op.parent == 0 || !NameOk(act.op.name))
    ensures Simulates(act, s, t, s, t, true, 0)
  {
    hide Depicts, Meaning, NameOk, Makes, Broken;
    if Depicts(s, t) { DepictsReadable(s, t); }
  }

  /** What `lufirafs_create` returned, in terms of the abstract file system. */
  lemma MakeOutcome(act: Act, s: State, u: State, t: Tree, x: nat, r: int) returns (t': Tree, kept: bool)
    requires Depicts(s, t) && Shape(u) && act.op.Make? && (act.op.name == [] || NameOk(act.op.name))
    requires CreateMeans(s, u, t, act.op.parent, act.op.name, x, act.op.isDir, act.scanOk, r)
    requires r == 0 || r == -1 || r == -2 || r == -3
    requires r == -1 || r == -2 ==> u == s
    requires r == 0 ==> Kept(s, u, {x, act.op.parent as nat}) && IsIno(x)
    requires r == 0 && !act.op.isDir && x != act.op.parent ==> InodeOf(u, x).size == 0 && Blank(u, x)
    requires r == -3 ==> Kept(s, u, {x})
    requires r == -3 && act.heapOk && IsIno(act.op.parent) ==> DirMaxed(s, act.op.parent) || Full(u)
    ensures Simulates(act, s, t, u, t', kept, x)
    ensures if r == 0 && kept then Addable(t, act.op.parent, act.op.name) && !Live(t, x)
                                   && t' == Created(t, act.op.parent, act.op.name, x, act.op.isDir)
            else t' == t
  {
    hide Depicts, Kept, Blank, DirMaxed, Full, Created, Broken, Makes, FileOf;
    var m := act.op;
    DepictsReadable(s, t);
    t', kept := t, true;
    if r == 0 {
      kept := Addable(t, m.parent, m.name);
      if kept {
        t' := Created(t, m.parent, m.name, x, m.isDir);
        DepictsReadable(u, t');
        MakeMeans(s, u, t, t', m.parent, m.name, x, m.isDir);
      }
    } else if r == -3 {
      SameMeaning(s, u, t, {x});
    }
  }

  /** The free-inode counter over a create that keeps a tree. */
  lemma MakeCounts(s: State, u: State, t: Tree, t': Tree, parent: nat, name: Name, x: nat, isDir: bool, r: int, n: U32)
    requires Depicts(s, t) && Depicts(u, t') && n == FreeCount(s.inodes) && (r == 0 ==> IsIno(x))
    requires if r == 0 then Addable(t, parent, name) && !Live(t, x) && t' == Created(t, parent, name, x, isDir)
             else t' == t
    ensures FreeCount(u.inodes) == if r == 0 then Less(n) else n
  {
    hide Depicts, To, NameOk;
    if r == 0 { OneMore(s, u, t, t', x); } else { SameTree(s, u, t); }
  }

  /** A counter that is right stays right while the tree lasts. */
  ghost predicate CountKept(s: State, t: Tree, u: State, kept: bool, n: U32, m: U32) {
    Depicts(s, t) && kept && n == FreeCount(s.inodes) ==> m == FreeCount(u.inodes)
  }

  lemma MakeCountKept(s: State, u: State, t: Tree, t': Tree, m: Op, x: nat, r: int, n: U32)
    requires Depicts(s, t) && Depicts(u, t') && m.Make? && (r == 0 || r == -3 ==> IsIno(x))
    requires r == -3 ==> InodeOf(s, x).mode == MODE_FREE
    requires if r == 0 then Addable(t, m.parent, m.name) && !Live(t, x)
                            && t' == Created(t, m.parent, m.name, x, m.isDir)
             else t' == t
    ensures CountKept(s, t, u, true, n, if r == 0 then Less(n) else if r == -3 then More(Less(n)) else n)
  {
    hide Depicts, To, NameOk, Created, Live, FreeCount;
    if n == FreeCount(s.inodes) {
      MakeCounts(s, u, t, t', m.parent, m.name, x, m.isDir, r, n);
      FreeCountAll(s.inodes);
      if r == -3 { DepictsShape(s, t); FreeCountSome(s.inodes, x - 1); }
    }
  }

  lemma CountSame(s: State, t: Tree, u: State, n: U32)
    requires Depicts(s, t) ==> Depicts(u, t)
    ensures CountKept(s, t, u, true, n, n)
  {
    hide Depicts;
    if Depicts(s, t) { SameTree(s, u, t); }
  }

  lemma SimulatesDepicts(act: Act, s: State, t: Tree, u: State, t': Tree, kept: bool, x: nat)
    requires Simulates(act, s, t, u, t', kept, x)
    ensures Depicts(s, t) && kept ==> Depicts(u, t')
  {
    hide Depicts, Allowed, Meaning, Broken, Hazard;
  }

  method StepMake(fs: LufiraFs, act: Act, ghost t0: Tree) returns (ghost t: Tree, ghost kept: bool, ghost x: nat)
    requires fs.Valid() && act.op.Make? && fs.heapOk == act.heapOk
    modifies fs, fs.image, fs.dirty
    ensures fs.Valid() && Simulates(act, old(fs.S()), t0, fs.S(), t, kept, x)
    ensures SpillOnly(fs.geom, old(fs.stale), fs.stale, Touched(act.op, x))
    ensures CountKept(old(fs.S()), t0, fs.S(), kept, old(fs.sb.freeInodes), fs.sb.freeInodes)
    ensures Ledger(act, old(fs.S()), fs.S(), x)
  {
    hide LufiraFs.MetaOk, Inv, Tidy, To, Created, Meaning, Kept, Depicts, Makes, NameOk, Live, Readable, Broken, Spill,
      Blank, Full;
    hide DirMaxed, CreateMeans, Simulates, FreeCount;
    var m := act.op;
    t, kept, x := t0, true, 0;
    ghost var s := fs.S();
    if m.parent == 0 || (m.name != [] && !NameOk(m.name)) { NotMade(act, s, t0); return; }
    var r, ino;
    var mode := if m.isDir then MODE_DIR else MODE_FILE;
    r, ino := fs.Create(m.parent, m.name, mode, m.uid, m.gid, m.perm, act.scanOk, t0);
    x := ino;
    SpillTwo(fs.geom, old(fs.stale), fs.stale, x, m.parent);
    if r == 0 { MadeOwners(s, fs.S(), x, m.parent); }
    if r == -3 { UndoneOwners(s, fs.S(), x); }
    if Depicts(s, t0) {
      t, kept := MakeOutcome(act, s, fs.S(), t0, x, r);
      SimulatesDepicts(act, s, t0, fs.S(), t, kept, x);
      if kept { MakeCountKept(s, fs.S(), t0, t, m, x, r, old(fs.sb.freeInodes)); }
    } else {
      NoTree(act, s, t0, fs.S(), x);
    }
  }

  /** What `lufirafs_unlink` returned. */
  lemma RemoveOutcome(act: Act, s: State, u: State, t: Tree, x: nat, gone: bool, r: int) returns (t': Tree, kept: bool)
    requires Depicts(s, t) && Shape(u) && act.op.Remove? && (r == 0 || r == -1 || r == -2 || r == -3)
    requires UnlinkMeans(s, u, t, act.op.parent, act.op.name, x, gone, act.scanOk, act.heapOk, r)
    requires r != 0 ==> u == s
    requires r == 0 ==> Kept(s, u, {x, act.op.parent as nat})
    ensures Simulates(act, s, t, u, t', kept, x)
    ensures r == 0 && kept ==> Plain(act.op.name) && x == To(t, act.op.parent, act.op.name)
    ensures r != 0 ==> t' == t
  {
    hide Depicts, Kept, Removed, Broken, FileOf, To, Empty;
    var m := act.op;
    DepictsReadable(s, t);
    t', kept := t, true;
    if r == 0 {
      kept := Plain(m.name) && Empty(t, x) && gone;
      if kept {
        t' := Removed(t, m.parent, m.name);
        DepictsReadable(u, t');
        RemoveMeans(s, u, t, t', m.parent, m.name);
      } else if act.scanOk {
        var _, _ := DotTarget(s, t, m.parent, m.name);
      }
    } else if r == -3 && Removable(t, m.parent, m.name) {
      EntryTarget(s, t, m.parent, m.name);
    } else if r == -1 && Removable(t, m.parent, m.name) {
      NamesOk(s, t, m.parent, m.name);
    }
  }

  lemma NamesOk(s: State, t: Tree, d: nat, name: Name)
    requires Depicts(s, t) && To(t, d, name) != 0
    ensures NameOk(name)
  {
    hide NameOk;
    var e := HasSlot(s, t, d, name);
    DirOfTree(s, t, d);
    LiveEntry(s, t, d, e);
  }

  /** What unlink removes from a tree was in use. */
  lemma UnlinkedWas(act: Act, s: State, u: State, t: Tree, x: nat, gone: bool)
    requires Depicts(s, t) && act.op.Remove? && Plain(act.op.name) && x == To(t, act.op.parent, act.op.name) && IsIno(x)
    requires UnlinkMeans(s, u, t, act.op.parent, act.op.name, x, gone, act.scanOk, act.heapOk, 0)
    ensures !IsFree(s.inodes[x - 1])
  {
    hide Depicts, Broken, Removed, Empty;
    EntryTarget(s, t, act.op.parent, act.op.name);
    assert Live(t, x) by { EntryLive(s, t, act.op.parent, act.op.name); }
    FreeIffNotLive(s, t, x);
  }

  lemma EntryLive(s: State, t: Tree, d: nat, name: Name)
    requires Depicts(s, t) && Plain(name) && To(t, d, name) != 0
    ensures Live(t, To(t, d, name))
  {
    hide Represents, Dotted, NamedOnce, Reachable;
  }

  method StepRemove(fs: LufiraFs, act: Act, ghost t0: Tree) returns (ghost t: Tree, ghost kept: bool, ghost x: nat)
    requires fs.Valid() && act.op.Remove? && fs.heapOk == act.heapOk
    modifies fs, fs.image, fs.dirty
    ensures fs.Valid() && Simulates(act, old(fs.S()), t0, fs.S(), t, kept, x)
    ensures SpillOnly(fs.geom, old(fs.stale), fs.stale, Touched(act.op, x))
    ensures CountKept(old(fs.S()), t0, fs.S(), kept, old(fs.sb.freeInodes), fs.sb.freeInodes)
    ensures Ledger(act, old(fs.S()), fs.S(), x)
  {
    hide LufiraFs.MetaOk, Inv, Tidy, Kept, Depicts, Spill, UnlinkMeans, Simulates, OnlyLeads, To;
    t, kept := t0, true;
    ghost var s := fs.S();
    ghost var gone;
    var r;
    r, x, gone := fs.Unlink(act.op.parent, act.op.name, act.scanOk, t0);
    if Depicts(s, t0) {
      t, kept := RemoveOutcome(act, s, fs.S(), t0, x, gone, r);
      if r == 0 && kept {
        UnlinkedWas(act, s, fs.S(), t0, x, gone);
        if old(fs.sb.freeInodes) == FreeCount(s.inodes) { FreedCount(s.inodes, x - 1, old(fs.sb.freeInodes)); }
      }
    } else {
      NoTree(act, s, t0, fs.S(), x);
    }
  }

  /** A change to one file that is no directory. */
  lemma FileOutcome(act: Act, s: State, u: State, t: Tree, ino: nat)
    requires Inv(s) && Inv(u) && IsIno(ino) && InodeOf(s, ino).mode != MODE_DIR && OthersSame(s, u, ino)
    requires InodeOf(u, ino).mode == InodeOf(s, ino).mode
    requires Readable(s, t) && ino in t.files ==> Readable(u, t) && Allowed(act, Meaning(s, t), Meaning(u, t), 0)
    requires Readable(s, t) && ino !in t.files && Readable(u, t) && Same(Meaning(s, t), Meaning(u, t)) ==>
               Allowed(act, Meaning(s, t), Meaning(u, t), 0)
    ensures Simulates(act, s, t, u, t, true, 0)
  {
    hide Depicts, Inv, OthersSame, Allowed, Meaning, Broken, FileOf;
    if Depicts(s, t) {
      DepictsReadable(s, t);
      FileChanged(s, u, ino, t);
      OneFile(s, u, t, ino);
    }
  }

  /** A refused store or cut, or a store that failed for want of memory, changes nothing. */
  lemma Refused(act: Act, s: State, t: Tree)
    requires Shape(s) && (act.op.Store? || act.op.Resize?)
    requires IsIno(act.op.ino) && InodeOf(s, act.op.ino).mode != MODE_DIR ==>
               act.op.Store? && (act.op.offset + |act.op.data| > MAX_FILE_SIZE || !act.heapOk)
    ensures Simulates(act, s, t, s, t, true, 0)
  {
    hide Depicts, Meaning, Broken, FileOf;
    if Depicts(s, t) { DepictsReadable(s, t); }
  }

  lemma StoreOutcome(act: Act, s: State, u: State, t: Tree, n: nat)
    requires Inv(s) && act.op.Store? && IsIno(act.op.ino) && InodeOf(s, act.op.ino).mode != MODE_DIR
    requires n <= |act.op.data|
    requires act.op.offset + |act.op.data| <= MAX_FILE_SIZE && Wrote(s, u, act.op.ino, act.op.offset, act.op.data[..n])
    requires n == |act.op.data| || Full(u) || !act.heapOk
    ensures Simulates(act, s, t, u, t, true, 0)
  {
    hide Depicts, Inv, OthersSame, Stores, Simulates, BlockAt, ByteAt, Meaning;
    if Readable(s, t) && act.op.ino in t.files { StoreMeans(s, u, t, act.op.ino, act.op.offset, act.op.data, n); }
    FileOutcome(act, s, u, t, act.op.ino);
  }

  method StepStore(fs: LufiraFs, act: Act, ghost t: Tree)
    requires fs.Valid() && act.op.Store? && fs.heapOk == act.heapOk
    modifies fs, fs.image, fs.dirty
    ensures fs.Valid() && Simulates(act, old(fs.S()), t, fs.S(), t, true, 0)
    ensures Ledger(act, old(fs.S()), fs.S(), 0)
    ensures fs.sb.freeInodes == old(fs.sb.freeInodes)
    ensures SpillOnly(fs.geom, old(fs.stale), fs.stale, Touched(act.op, 0))
  {
    hide LufiraFs.MetaOk, Inv, Wrote, Simulates, Full, Spill;
    var m := act.op;
    ghost var s := fs.S();
    var ok, inode := fs.ReadInode(m.ino);
    if !ok || inode.mode == MODE_DIR || m.offset + |m.data| > MAX_FILE_SIZE { Refused(act, s, t); return; }
    var r;
    ghost var written;
    r, written := fs.Write(m.ino, m.offset, m.data);
    if fs.S() != s || fs.heapOk {
      StoreOutcome(act, s, fs.S(), t, written);
      StoreOwners(s, fs.S(), m.ino, m.offset, m.data[..written]);
    } else {
      Refused(act, s, t);
    }
  }

  lemma ResizeOutcome(act: Act, s: State, u: State, t: Tree)
    requires Inv(s) && act.op.Resize? && IsIno(act.op.ino) && InodeOf(s, act.op.ino).mode != MODE_DIR
    requires Cut(s, u, act.op.ino, act.op.size, act.heapOk)
    ensures Simulates(act, s, t, u, t, true, 0)
  {
    hide Depicts, Inv, OthersSame, Simulates, BlockAt, Trimmed, FileOf, NBlocks;
    if Readable(s, t) && act.op.ino in t.files {
      CutMeans(s, u, t, act.op.ino, act.op.size, act.heapOk);
      OneFile(s, u, t, act.op.ino);
    }
    FileOutcome(act, s, u, t, act.op.ino);
  }

  method StepResize(fs: LufiraFs, act: Act, ghost t: Tree)
    requires fs.Valid() && act.op.Resize? && fs.heapOk == act.heapOk
    modifies fs, fs.image, fs.dirty
    ensures fs.Valid() && Simulates(act, old(fs.S()), t, fs.S(), t, true, 0)
    ensures Ledger(act, old(fs.S()), fs.S(), 0)
    ensures fs.sb.freeInodes == old(fs.sb.freeInodes)
    ensures SpillOnly(fs.geom, old(fs.stale), fs.stale, Touched(act.op, 0))
  {
    hide LufiraFs.MetaOk, Inv, Cut, Simulates, Spill;
    ghost var s := fs.S();
    var ok, inode := fs.ReadInode(act.op.ino);
    if !ok || inode.mode == MODE_DIR { Refused(act, s, t); return; }
    var r := fs.Truncate(act.op.ino, act.op.size);
    ResizeOutcome(act, s, fs.S(), t);
    CutOwners(s, fs.S(), act.op.ino, act.op.size, act.heapOk);
  }

  lemma FlushOutcome(act: Act, s: State, u: State, t: Tree)
    requires act.op.Flush? && Inv(s) && Shape(u) && u.dataStart == s.dataStart && u.bits == s.bits
    requires u.inodes == s.inodes
    requires |u.disk| == |s.disk| && forall b :: s.dataStart <= b < |s.disk| ==> u.disk[b] == s.disk[b]
    ensures Simulates(act, s, t, u, t, true, 0)
  {
    hide Depicts, Inv, Meaning, FileOf, BlockAt, Broken;
    if Depicts(s, t) {
      DepictsReadable(s, t);
      TreeSynced(s, u, t);
      MetaWritten(s, u);
      assert Kept(s, u, {});
      SameMeaning(s, u, t, {});
    }
  }

  method StepFlush(fs: LufiraFs, act: Act, ghost t: Tree) returns (saved: bool)
    requires fs.Valid() && act.op.Flush?
    modifies fs, fs.image, fs.dirty
    ensures fs.Valid() && Simulates(act, old(fs.S()), t, fs.S(), t, true, 0)
    ensures Ledger(act, old(fs.S()), fs.S(), 0)
    ensures fs.stale == old(fs.stale) && (saved ==> SavedBut(fs)) && fs.sb == old(fs.sb)
  {
    hide Inv, Simulates, OnDisk, DecodesTo, HoldsSuper, LufiraFs.Covered, Losable;
    ghost var s := fs.S();
    saved := fs.Sync();
    FlushOutcome(act, s, fs.S(), t);
    MetaWritten(s, fs.S());
  }

  /** Any one action. `x` is the inode that it made or removed. */
  method Step(fs: LufiraFs, act: Act, ghost t0: Tree)
    returns (ghost t: Tree, ghost kept: bool, ghost x: nat, saved: bool)
    requires fs.Valid()
    modifies fs, fs.image, fs.dirty
    ensures fs.Valid() && Simulates(act, old(fs.S()), t0, fs.S(), t, kept, x)
    ensures SpillOnly(fs.geom, old(fs.stale), fs.stale, Touched(act.op, x))
    ensures saved ==> act.op.Flush? && SavedBut(fs)
    ensures CountKept(old(fs.S()), t0, fs.S(), kept, old(fs.sb.freeInodes), fs.sb.freeInodes)
    ensures Ledger(act, old(fs.S()), fs.S(), x)
  {
    hide LufiraFs.Valid, LufiraFs.MetaOk, Simulates, SavedBut, Spill, CountKept, Depicts;
    t, kept, x, saved := t0, true, 0, false;
    ghost var s := fs.S();
    fs.SetHeap(act.heapOk);
    match act.op {
      case Make(_, _, _, _, _, _) => t, kept, x := StepMake(fs, act, t0);
      case Remove(_, _) => t, kept, x := StepRemove(fs, act, t0);
      case Store(_, _, _) => StepStore(fs, act, t0);
      case Resize(_, _) => StepResize(fs, act, t0);
      case Flush => saved := StepFlush(fs, act, t0);
    }
    if !act.op.Make? && !act.op.Remove? {
      SimulatesDepicts(act, s, t0, fs.S(), t, kept, x);
      CountSame(s, t0, fs.S(), fs.sb.freeInodes);
    }
  }

  // -------------------------------------------------------------------- runs

  /** `a` is what state `s` of the volume means; texts are what `lufirafs_read` delivers. */
  ghost predicate Shows(s: State, a: Abs) {
    && Depicts(s, a.tree) && Readable(s, a.tree) && a == Meaning(s, a.tree)
    && forall i :: i in a.files ==> Text(a.files[i]) == Content(s, i)
  }

  lemma MeaningShows(s: State, t: Tree)
    requires Depicts(s, t) && Readable(s, t)
    ensures Shows(s, Meaning(s, t))
  {
    hide Depicts, Meaning, Content;
    forall i | i in t.files ensures Text(Meaning(s, t).files[i]) == Content(s, i) { TextIsContent(s, t, i); }
  }

  /** The states `ss` of the volume follow a run of the abstract file system: to the end, or
      to a hazard that left no tree. */
  ghost predicate Follows(acts: seq<Act>, xs: seq<nat>, trace: seq<Abs>, ss: seq<State>)
    ensures Follows(acts, xs, trace, ss) ==> 1 <= |trace| <= |acts| + 1 == |ss| && |xs| == |acts|
  {
    && AbstractRun(acts, xs, trace) && |ss| == |acts| + 1
    && (forall k :: 0 <= k < |trace| ==> Shows(ss[k], trace[k]))
    && (|trace| <= |acts| ==> Hazard(acts[|trace| - 1], trace[|trace| - 1].tree) && Broken(ss[|trace|]))
  }

  lemma StartTrace(s: State, t: Tree)
    requires Depicts(s, t) && Readable(s, t)
    ensures Follows([], [], [Meaning(s, t)], [s])
  {
    hide Shows, Broken, Depicts, Meaning, Readable, Hazard, Allowed;
    MeaningShows(s, t);
  }

  lemma NextTrace(acts: seq<Act>, n: nat, xs: seq<nat>, trace: seq<Abs>, ss: seq<State>, t: Tree, s': State, t': Tree,
                  kept: bool, x: nat)
    returns (next: seq<Abs>)
    requires n < |acts| && Follows(acts[..n], xs, trace, ss) && (|trace| == n + 1 ==> t == trace[n].tree)
    requires Simulates(acts[n], ss[n], t, s', t', kept, x)
    ensures Follows(acts[..n + 1], xs + [x], next, ss + [s']) && next[0] == trace[0]
    ensures |next| == n + 2 ==> t' == next[n + 1].tree && |trace| == n + 1 && kept
  {
    hide Depicts, Meaning, Allowed, Readable, Broken, Hazard, Shows;
    next := trace;
    if |trace| == n + 1 {
      ShowsWhat(ss[n], trace[n]);
      if kept { next := trace + [Meaning(s', t')]; MeaningShows(s', t'); }
    }
    var p, ys, us := acts[..n + 1], xs + [x], ss + [s'];
    forall k | 0 <= k < |next| - 1 ensures Allowed(p[k], next[k], next[k + 1], ys[k]) {
      if k < |trace| - 1 { assert p[k] == acts[..n][k] && ys[k] == xs[k]; }
    }
    forall k | 0 <= k < |next| ensures Shows(us[k], next[k]) {
      if k < |trace| { assert us[k] == ss[k]; }
    }
    if |trace| <= n { assert us[|trace|] == ss[|trace|] && p[|trace| - 1] == acts[..n][|trace| - 1]; }
  }

  lemma LastShows(acts: seq<Act>, xs: seq<nat>, trace: seq<Abs>, ss: seq<State>)
    requires Follows(acts, xs, trace, ss) && |trace| == |acts| + 1
    ensures Depicts(ss[|acts|], trace[|acts|].tree)
  {
    hide Depicts, Meaning;
    assert Shows(ss[|acts|], trace[|acts|]);
  }

  lemma ShowsWhat(s: State, a: Abs)
    requires Shows(s, a)
    ensures Depicts(s, a.tree) && Readable(s, a.tree) && a == Meaning(s, a.tree)
  {}

  /** Every run keeps ownership and the free count. On a volume with a tree its states `ss`
      follow a run of the abstract file system, up to the first action that destroys the tree
      if there is one. What `sync` can miss is the second block of a straddling inode that an
      action stored; after a complete `sync` all other metadata is on disk, and all of it if no
      such inode was stored. A free-inode counter that is right stays right as long as the tree
      lasts. */
  method Run(fs: LufiraFs, acts: seq<Act>, ghost t0: Tree)
    returns (ghost xs: seq<nat>, ghost trace: seq<Abs>, ghost ss: seq<State>, saved: bool)
    requires fs.Valid()
    modifies fs, fs.image, fs.dirty
    ensures fs.Valid() && |ss| == |acts| + 1 && ss[0] == old(fs.S()) && ss[|acts|] == fs.S()
    ensures |xs| == |acts| && forall n :: 0 <= n < |acts| ==> Ledger(acts[n], ss[n], ss[n + 1], xs[n])
    ensures Depicts(old(fs.S()), t0) ==> Follows(acts, xs, trace, ss) && trace[0].tree == t0
    ensures Depicts(old(fs.S()), t0) && |trace| > |acts| && old(InodesCounted(fs)) ==> InodesCounted(fs)
    ensures SpillRun(fs.geom, old(fs.stale), fs.stale, acts, xs)
    ensures saved ==> SavedBut(fs)
    ensures saved && old(fs.stale) == {} && AllWhole(acts, xs) ==> Clean(fs.geom, fs.image[..], fs.disk)
  {
    hide Depicts, LufiraFs.MetaOk, Inv, Meaning, Allowed, SpillOnly, SpillRun, AllWhole, SavedBut, Clean, Readable;
    hide Broken, Hazard, Follows, Simulates, Shows, Ledger;
    ghost var t := t0;
    xs, trace, ss, saved := [], [], [fs.S()], false;
    if Depicts(ss[0], t0) {
      DepictsReadable(ss[0], t0);
      trace := [Meaning(ss[0], t0)];
      StartTrace(ss[0], t0);
      assert acts[..0] == [];
    }
    SpillStart(fs.geom, fs.stale, acts);
    for n := 0 to |acts|
      invariant fs.Valid() && |xs| == n && SpillRun(fs.geom, old(fs.stale), fs.stale, acts, xs)
      invariant |ss| == n + 1 && ss[0] == old(fs.S()) && ss[n] == fs.S()
      invariant forall k :: 0 <= k < n ==> Ledger(acts[k], ss[k], ss[k + 1], xs[k])
      invariant saved ==> SavedBut(fs)
      invariant Depicts(ss[0], t0) ==>
                  && Follows(acts[..n], xs, trace, ss) && trace[0].tree == t0
                  && (|trace| == n + 1 ==> t == trace[n].tree)
                  && (|trace| == n + 1 && old(InodesCounted(fs)) ==> InodesCounted(fs))
    {
      ghost var stale := fs.stale;
      if Depicts(ss[0], t0) && |trace| == n + 1 { LastShows(acts[..n], xs, trace, ss); }
      ghost var t', kept, x;
      t', kept, x, saved := Step(fs, acts[n], t);
      SpillNext(fs.geom, old(fs.stale), stale, fs.stale, acts, xs, x);
      if Depicts(ss[0], t0) { trace := NextTrace(acts, n, xs, trace, ss, t, fs.S(), t', kept, x); }
      t, xs, ss := t', xs + [x], ss + [fs.S()];
    }
    assert acts[..|acts|] == acts;
    if saved && old(fs.stale) == {} && AllWhole(acts, xs) {
      NoSpill(fs.geom, fs.stale, acts, xs);
      AllSaved(fs);
    }
  }

  /** Between its making and its removal an inode keeps its owner, permissions and links,
      whatever the run does in between. */
  lemma {:induction false} OwnersOverRun(acts: seq<Act>, xs: seq<nat>, ss: seq<State>, i: nat, lo: nat, hi: nat)
    requires |xs| == |acts| && |ss| == |acts| + 1 && lo <= hi <= |acts| && IsIno(i) && Shape(ss[lo])
    requires forall n :: 0 <= n < |acts| ==> Ledger(acts[n], ss[n], ss[n + 1], xs[n])
    requires forall n :: lo <= n < hi && (acts[n].op.Make? || acts[n].op.Remove?) ==> xs[n] != i
    ensures Shape(ss[hi]) && SameOwner(InodeOf(ss[hi], i), InodeOf(ss[lo], i))
  {
    hide Emptied, CutBack;
    if lo < hi {
      OwnersOverRun(acts, xs, ss, i, lo, hi - 1);
      assert Ledger(acts[hi - 1], ss[hi - 1], ss[hi], xs[hi - 1]);
    }
  }

  /** From a formatted volume, with cuts that leave no part of a block behind: whatever the
      actions and failures, stores overwrite texts, cuts take prefixes, and a complete sync
      with no straddling inode stored leaves the disk as it should be. */
  method RunFromFormat(total: nat, acts: seq<Act>)
    returns (fs: LufiraFs, ghost xs: seq<nat>, ghost trace: seq<Abs>, ghost ss: seq<State>, saved: bool)
    requires Geometry(total).Good()
    ensures fs.Valid() && Follows(acts, xs, trace, ss) && trace[0].tree == RootTree() && trace[0].files == map[]
    ensures ss[|acts|] == fs.S() && forall n :: 0 <= n < |acts| ==> Ledger(acts[n], ss[n], ss[n + 1], xs[n])
    ensures forall n :: 0 <= n < |trace| && AllGentle(acts, trace, n) ==> AllNeat(trace[n]) && TextsTo(acts, trace, n)
    ensures saved && AllWhole(acts, xs) ==> Clean(fs.geom, fs.image[..], fs.disk)
    ensures |trace| > |acts| ==> InodesCounted(fs)
  {
    hide Depicts, LufiraFs.MetaOk, Inv, Tidy, AllNeat, Follows, SpillRun, AllWhole, SavedBut, Clean, Broken, Shows;
    hide Ledger;
    fs := Format(total);
    TidyIsNeat(fs.S(), RootTree());
    xs, trace, ss, saved := Run(fs, acts, RootTree());
    FollowsFrom(acts, xs, trace, ss);
    TextsOfRun(acts, xs, trace, ss);
  }

  lemma FollowsFrom(acts: seq<Act>, xs: seq<nat>, trace: seq<Abs>, ss: seq<State>)
    requires Follows(acts, xs, trace, ss)
    ensures Readable(ss[0], trace[0].tree) && trace[0] == Meaning(ss[0], trace[0].tree)
  {
    assert Shows(ss[0], trace[0]);
  }

  ghost predicate AllGentle(acts: seq<Act>, trace: seq<Abs>, n: nat)
    requires n < |trace| <= |acts| + 1
  {
    forall k :: 0 <= k < n ==> Gentle(acts[k], trace[k])
  }

  ghost predicate TextsTo(acts: seq<Act>, trace: seq<Abs>, n: nat)
    requires n < |trace| <= |acts| + 1
  {
    forall k :: 0 <= k < n ==> NeatAt(acts[k], trace, k)
  }

  lemma TextsOfRun(acts: seq<Act>, xs: seq<nat>, trace: seq<Abs>, ss: seq<State>)
    requires Follows(acts, xs, trace, ss) && AllNeat(trace[0])
    ensures forall n :: 0 <= n < |trace| && AllGentle(acts, trace, n) ==> AllNeat(trace[n]) && TextsTo(acts, trace, n)
  {
    hide Allowed, AllNeat, Gentle, NeatAt, Shows, Hazard;
    forall n | 0 <= n < |trace| && AllGentle(acts, trace, n) ensures AllNeat(trace[n]) && TextsTo(acts, trace, n) {
      NeatRun(acts, xs, trace, n);
    }
  }

  lemma AllSaved(fs: LufiraFs)
    requires fs.Layout() && SavedBut(fs) && fs.stale == {}
    ensures Clean(fs.geom, fs.image[..], fs.disk)
  {}

  // -------------------------------------------------------- what a cut leaves

  const PAIR: seq<Byte> := [7, 7]
  const ONE: seq<Byte> := [9]

  /** A run that brings back cut-off bytes: two bytes written, one cut off, and a write past the
      new end. The middle byte should be zero; it is the old one, whenever the disk had a block
      to store them in. */
  method CutThenWrite(fs: LufiraFs, ino: nat) returns (a: int, b: int, ghost s1: State)
    requires fs.Valid() && fs.heapOk && IsIno(ino) && InodeOf(fs.S(), ino).size == 0
    modifies fs, fs.image, fs.dirty
    ensures fs.Valid() && Shape(s1) && (a == 2 || Full(s1)) && (b == 1 || Full(fs.S()))
    ensures a == 2 && b == 1 ==> Content(fs.S(), ino) == [7, 7, 9]
    ensures Overwrite(Overwrite([], 0, PAIR)[..1], 2, ONE) == [7, 0, 9]
  {
    hide LufiraFs.MetaOk, Inv, Wrote, Cut, Full, Content, Spill;
    ghost var s0 := fs.S();
    ghost var n;
    a, n := fs.Write(ino, 0, PAIR);
    assert PAIR[..2] == PAIR && ONE[..1] == ONE;
    s1 := fs.S();
    var r := fs.Truncate(ino, 1);
    ghost var s2 := fs.S();
    b, n := fs.Write(ino, 2, ONE);
    if a == 2 && b == 1 { LeftOver(s0, s1, s2, fs.S(), ino); }
  }

  lemma LeftOver(s0: State, s1: State, s2: State, s3: State, ino: nat)
    requires Shape(s0) && Shape(s1) && Shape(s2) && IsIno(ino) && InodeOf(s0, ino).size == 0
    requires Wrote(s0, s1, ino, 0, PAIR) && Cut(s1, s2, ino, 1, true) && Wrote(s2, s3, ino, 2, ONE)
    ensures Content(s3, ino) == [7, 7, 9]
  {
    hide OthersSame, BlockAt, Inv;
    assert ByteAt(s1, ino, 0) == PAIR[0] && ByteAt(s1, ino, 1) == PAIR[1];
    assert BlockAt(s2, ino, 0) == BlockAt(s1, ino, 0);
    assert ByteAt(s2, ino, 0) == 7 && ByteAt(s2, ino, 1) == 7;
    assert ByteAt(s3, ino, 0) == 7 && ByteAt(s3, ino, 1) == 7 && ByteAt(s3, ino, 2) == ONE[0];
  }
}
