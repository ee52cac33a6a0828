/** A volume depicts a directory tree; what the steps of create and unlink on the
    volume mean for that tree. */
module LufiraNamespace {
  import opened LufiraFormat
  import opened LufiraState
  import opened LufiraContent
  import opened LufiraDirs
  import opened LufiraTree
  import opened LufiraPath

  /** Inode modes and directory blocks of `st` say exactly what `t` says. */
  ghost predicate Depicts(st: State, t: Tree) {
    && Shape(st) && WellFormed(t)
    && (forall x :: Live(t, x) ==> IsIno(x))
    && (forall i :: IsIno(i) ==> ModeSays(InodeOf(st, i).mode, i, t))
    && (forall d :: d in t.dirs ==> Represents(st, d, t.dirs[d]))
  }

  predicate ModeSays(mode: U32, i: nat, t: Tree) {
    && (mode == MODE_FREE || mode == MODE_FILE || mode == MODE_DIR)
    && (mode == MODE_DIR <==> i in t.dirs) && (mode == MODE_FILE <==> i in t.files)
  }

  lemma OthersTrans(a: State, b: State, c: State, ino: nat)
    requires Shape(a) && Shape(b) && Shape(c) && OthersSame(a, b, ino) && OthersSame(b, c, ino)
    ensures OthersSame(a, c, ino)
  {
    forall i, k | IsIno(i) && i != ino && 0 <= k ensures BlockAt(c, i, k) == BlockAt(a, i, k) {
      assert BlockAt(b, i, k) == BlockAt(a, i, k);
    }
  }

  lemma SameModes(s: State, t: State, ino: nat)
    requires Shape(s) && Shape(t) && OthersSame(s, t, ino)
    ensures forall i :: IsIno(i) && i != ino ==> InodeOf(t, i) == InodeOf(s, i)
  {}

  lemma DirKept(s: State, t: State, ino: nat, d: nat, m: Dir)
    requires Shape(s) && Shape(t) && OthersSame(s, t, ino) && IsIno(d) && d != ino && Represents(s, d, m)
    ensures Represents(t, d, m)
  {
    RepresentsFrame(s, t, d, m);
  }

  /** A scan of a depicted directory finds a name exactly when the tree has it. */
  lemma ScanMeans(st: State, t: Tree, d: nat, name: Name)
    requires Depicts(st, t) && d in t.dirs
    ensures forall e :: 0 <= e < Slots(st, d) && DIno(st, d, e) != 0 && DName(st, d, e) == name ==>
              To(t, d, name) == DIno(st, d, e)
    ensures (forall e :: 0 <= e < Slots(st, d) && DIno(st, d, e) != 0 ==> DName(st, d, e) != name) ==>
              To(t, d, name) == 0
  {
    hide WellFormed, DIno, DName;
    if name in t.dirs[d] {
      assert Listed(st, d, name);
    }
  }

  ghost predicate Blank(s: State, ino: nat)
    requires Shape(s) && IsIno(ino)
  {
    forall k :: 0 <= k ==> BlockAt(s, ino, k) == ZeroBlock()
  }

  /** An inode with no pointers takes a table slot: nothing else moves. */
  lemma FreshInode(s: State, ino: nat, inode: Inode)
    requires Inv(s) && IsIno(ino)
    requires inode.indirect == 0 && forall k :: 0 <= k < DIRECT ==> inode.direct[k] == 0
    ensures Inv(View(s, ino, inode)) && OthersSame(s, View(s, ino, inode), ino)
    ensures Blank(View(s, ino, inode), ino)
  {
    var t := View(s, ino, inode);
    forall i, k | IsIno(i) && 0 <= k <= IND ensures Ptr(t, i, k) == if i == ino then 0 else Ptr(s, i, k) {}
    ShrinkInv(s, t);
  }

  /** Giving a half-made inode back leaves the tree that was there before. */
  lemma CreateUndone(s0: State, s: State, t: Tree, ino: nat)
    requires Depicts(s0, t) && IsIno(ino) && !Live(t, ino) && Inv(s) && OthersSame(s0, s, ino)
    ensures Inv(View(s, ino, FreeInode())) && Depicts(View(s, ino, FreeInode()), t)
  {
    hide WellFormed, Represents, Inv, OthersSame, BlockAt;
    FreshInode(s, ino, FreeInode());
    var u := View(s, ino, FreeInode());
    OthersTrans(s0, s, u, ino);
    SameModes(s0, u, ino);
    forall d | d in t.dirs ensures Represents(u, d, t.dirs[d]) { DirKept(s0, u, ino, d, t.dirs[d]); }
  }

  function Dots(ino: nat, parent: nat): Dir { map[DOT := ino, DOTDOT := parent] }

  lemma DotNames()
    ensures NameOk(DOT) && NameOk(DOTDOT) && DOT != DOTDOT
  {}

  lemma EmptyDir(s: State, ino: nat)
    requires Shape(s) && IsIno(ino) && InodeOf(s, ino).size == 0
    ensures Represents(s, ino, map[])
  {
    assert Slots(s, ino) == 0;
  }

  /** The last step of create: the new inode gets its name in the parent. */
  lemma CreateDone(s0: State, s3: State, s4: State, t: Tree, parent: nat, name: Name, ino: nat, e: nat, isDir: bool)
    requires Depicts(s0, t) && parent in t.dirs && To(t, parent, name) == 0 && NameOk(name)
    requires IsIno(ino) && !Live(t, ino) && Shape(s3) && Shape(s4)
    requires OthersSame(s0, s3, ino) && InodeOf(s3, ino).mode == if isDir then MODE_DIR else MODE_FILE
    requires isDir ==> Represents(s3, ino, Dots(ino, parent))
    requires OthersSame(s3, s4, parent) && SameOwner(InodeOf(s4, parent), InodeOf(s3, parent))
    requires EntAdded(s3, s4, parent, e, name, ino)
    ensures Depicts(s4, Created(t, parent, name, ino, isDir))
  {
    hide WellFormed, Represents, EntAdded, To;
    CreatedWellFormed(t, parent, name, ino, isDir);
    var u := Created(t, parent, name, ino, isDir);
    assert name !in t.dirs[parent] by {
      if name in t.dirs[parent] { EntryNonzero(s0, t, parent, name); }
    }
    DirKept(s0, s3, ino, parent, t.dirs[parent]);
    AddedRepresents(s3, s4, parent, e, name, ino, t.dirs[parent]);
    forall d | d in u.dirs ensures Represents(s4, d, u.dirs[d]) {
      if d == ino {
        DirKept(s3, s4, parent, ino, Dots(ino, parent));
      } else if d != parent {
        DirKept(s0, s3, ino, d, t.dirs[d]);
        DirKept(s3, s4, parent, d, t.dirs[d]);
      }
    }
  }

  lemma EntryNonzero(s: State, t: Tree, d: nat, name: Name)
    requires Depicts(s, t) && d in t.dirs && name in t.dirs[d]
    ensures To(t, d, name) != 0
  {
    hide WellFormed;
    assert Listed(s, d, name);
  }

  /** Removing the entry of an inode that was given back. */
  lemma UnlinkDone(s0: State, s1: State, s2: State, t: Tree, parent: nat, name: Name, e: nat)
    requires Depicts(s0, t) && parent in t.dirs && Removable(t, parent, name)
    requires Shape(s1) && Shape(s2)
    requires OthersSame(s0, s1, To(t, parent, name)) && InodeOf(s1, To(t, parent, name)).mode == MODE_FREE
    requires OthersSame(s1, s2, parent) && s2.inodes == s1.inodes
    requires e < Slots(s1, parent) && DIno(s1, parent, e) != 0 && DName(s1, parent, e) == name
    requires EntRemoved(s1, s2, parent, e)
    ensures Depicts(s2, Removed(t, parent, name))
  {
    hide WellFormed, Represents, EntRemoved, DIno, DName;
    var x := To(t, parent, name);
    NoSelfEntry(t, parent, name);
    RemovedWellFormed(t, parent, name);
    RemovedLive(t, parent, name);
    var u := Removed(t, parent, name);
    DirKept(s0, s1, x, parent, t.dirs[parent]);
    RemovedRepresents(s1, s2, parent, e, t.dirs[parent]);
    forall d | d in u.dirs ensures Represents(s2, d, u.dirs[d]) {
      if d != parent {
        DirKept(s0, s1, x, d, t.dirs[d]);
        DirKept(s1, s2, parent, d, t.dirs[d]);
      }
    }
  }

  lemma SameIsOthersSame(s: State, t: State, ino: nat)
    requires Shape(s) && Shape(t) && t.inodes == s.inodes && SameBlocks(s, t)
    ensures OthersSame(s, t, ino)
  {}

  lemma DirOfTree(s: State, t: Tree, d: nat)
    requires Depicts(s, t) && d in t.dirs
    ensures IsIno(d) && InodeOf(s, d).mode == MODE_DIR
  {
    assert Live(t, d);
  }

  lemma NoneFree(s: State, t: Tree)
    requires Depicts(s, t) && forall i :: IsIno(i) ==> InodeOf(s, i).mode != MODE_FREE
    ensures forall i :: IsIno(i) ==> Live(t, i)
  {}

  lemma FreeIsNotLive(s: State, t: Tree, ino: nat)
    requires Depicts(s, t) && IsIno(ino) && InodeOf(s, ino).mode == MODE_FREE
    ensures !Live(t, ino)
  {}

  /** Inodes outside `touched` keep their records and their blocks. */
  ghost predicate Kept(s: State, t: State, touched: set<nat>)
    requires Shape(s) && Shape(t)
  {
    && (forall i :: IsIno(i) && i !in touched ==> InodeOf(t, i) == InodeOf(s, i))
    && (forall i, k :: IsIno(i) && i !in touched && 0 <= k ==> BlockAt(t, i, k) == BlockAt(s, i, k))
  }

  lemma KeptTwo(a: State, b: State, c: State, i: nat, j: nat, touched: set<nat>)
    requires i in touched && j in touched
    requires Shape(a) && Shape(b) && Shape(c) && OthersSame(a, b, i) && OthersSame(b, c, j)
    ensures Kept(a, c, touched)
  {
    hide BlockAt;
    forall x, k | IsIno(x) && x !in touched && 0 <= k ensures BlockAt(c, x, k) == BlockAt(a, x, k) {
      assert BlockAt(b, x, k) == BlockAt(a, x, k);
    }
  }

  lemma KeptFile(s: State, t: State, touched: set<nat>, i: nat)
    requires Shape(s) && Shape(t) && Kept(s, t, touched) && IsIno(i) && i !in touched
    ensures InodeOf(t, i) == InodeOf(s, i) && forall p :: 0 <= p ==> ByteAt(t, i, p) == ByteAt(s, i, p)
  {
    hide BlockAt;
    forall p | 0 <= p ensures ByteAt(t, i, p) == ByteAt(s, i, p) {
      assert BlockAt(t, i, p / BLOCK_SIZE) == BlockAt(s, i, p / BLOCK_SIZE);
    }
  }

  lemma GaveUpAll(s: State, t: State, ino: nat, freed: set<nat>)
    requires Inv(s) && IsIno(ino) && Shape(t) && t.dataStart == s.dataStart && t.disk == s.disk
    requires GivenBack(s, t.bits, ino, freed) && t.inodes == s.inodes[ino - 1 := FreeInode()]
    ensures Inv(t) && OthersSame(s, t, ino) && Blank(t, ino)
  {
    assert GaveUp(s, t, ino, freed);
    GaveUpInv(s, t, ino, freed);
  }

  /** `unlink` counts no entry but the dots exactly when the directory is empty. */
  lemma ExtraMeans(s: State, t: Tree, d: nat)
    requires Depicts(s, t) && d in t.dirs
    ensures (forall e :: 0 <= e < Slots(s, d) && DIno(s, d, e) != 0 ==> !Plain(DName(s, d, e))) <==> Empty(t, d)
  {
    hide WellFormed, DIno, DName;
    if !Empty(t, d) {
      var nm :| Plain(nm) && To(t, d, nm) != 0;
      assert Listed(s, d, nm);
      var e :| 0 <= e < Slots(s, d) && DIno(s, d, e) != 0 && DName(s, d, e) == nm;
      assert Plain(DName(s, d, e));
    }
    if Empty(t, d) {
      forall e | 0 <= e < Slots(s, d) && DIno(s, d, e) != 0 ensures !Plain(DName(s, d, e)) {
        assert To(t, d, DName(s, d, e)) == DIno(s, d, e);
      }
    }
  }

  /** A plain entry leads to a live inode other than the root. */
  lemma EntryTarget(s: State, t: Tree, d: nat, name: Name)
    requires Depicts(s, t) && To(t, d, name) != 0 && Plain(name)
    ensures IsIno(To(t, d, name)) && To(t, d, name) != ROOT && To(t, d, name) != d
    ensures InodeOf(s, To(t, d, name)).mode == MODE_DIR <==> To(t, d, name) in t.dirs
    ensures To(t, d, name) !in t.dirs ==> Empty(t, To(t, d, name))
  {
    NoSelfEntry(t, d, name);
    assert Live(t, To(t, d, name));
  }

  /** The entry that unlink removes is still there after the inode was freed. */
  lemma StillListed(s0: State, s1: State, t: Tree, parent: nat, name: Name)
    requires Depicts(s0, t) && parent in t.dirs && To(t, parent, name) != 0 && Shape(s1)
    requires OthersSame(s0, s1, To(t, parent, name)) && To(t, parent, name) != parent
    ensures Listed(s1, parent, name)
  {
    hide WellFormed;
    DirKept(s0, s1, To(t, parent, name), parent, t.dirs[parent]);
  }

  lemma NoZero(s: State, t: Tree)
    requires Depicts(s, t)
    ensures !Live(t, 0)
  {}

  // ------------------------------------------------------------ climbing up

  lemma LiveEntry(s: State, t: Tree, d: nat, e: nat)
    requires Depicts(s, t) && d in t.dirs && IsIno(d) && e < Slots(s, d) && DIno(s, d, e) != 0
    ensures To(t, d, DName(s, d, e)) == DIno(s, d, e) && NameOk(DName(s, d, e))
  {
    hide WellFormed;
    assert DName(s, d, e) in t.dirs[d];
  }

  lemma EntryHasSlot(s: State, t: Tree, d: nat, nm: Name, child: nat)
    requires Depicts(s, t) && d in t.dirs && IsIno(d) && child != 0 && Plain(nm)
    requires forall x :: 0 <= x < Slots(s, d) ==> DIno(s, d, x) != child || !Plain(DName(s, d, x))
    ensures To(t, d, nm) != child
  {
    hide WellFormed, DIno, DName, Plain;
    if nm in t.dirs[d] {
      assert Listed(s, d, nm);
      var e :| 0 <= e < Slots(s, d) && DIno(s, d, e) != 0 && DName(s, d, e) == nm;
    }
  }

  /** `names` lead from `cur` to `ino`, and every plain path to `ino` goes that way. */
  ghost predicate Climbed(t: Tree, ino: nat, cur: nat, names: seq<Name>) {
    && Walk(t, cur, names) == ino && NamesOk(names)
    && (forall p :: AllPlain(p) && Walk(t, ROOT, p) == ino ==> Via(t, p, cur, names))
  }

  lemma ClimbStart(t: Tree, ino: nat)
    ensures Climbed(t, ino, ino, [])
  {
    forall p | AllPlain(p) && Walk(t, ROOT, p) == ino ensures Via(t, p, ino, []) {
      assert p[..|p|] == p;
    }
  }

  /** A directory has a parent that is a directory; a file has no dot entries. */
  lemma UpFrom(s: State, t: Tree, cur: nat)
    requires Depicts(s, t) && cur != 0
    ensures To(t, cur, DOTDOT) != 0 <==> cur in t.dirs
    ensures cur in t.dirs ==> To(t, cur, DOTDOT) in t.dirs
  {
    if cur in t.dirs && cur != ROOT {
      var d, nm := NamedExactlyOnce(t, cur);
    }
  }

  lemma Climb(s: State, t: Tree, ino: nat, cur: nat, names: seq<Name>, parent: nat, name: Name, ok: bool)
    requires Depicts(s, t) && Climbed(t, ino, cur, names) && cur in t.dirs && cur != ROOT
    requires parent == To(t, cur, DOTDOT)
    requires ok ==> Plain(name) && To(t, parent, name) == cur && NameOk(name)
    requires !ok ==> forall nm :: Plain(nm) ==> To(t, parent, nm) != cur
    ensures ok && parent != cur && Climbed(t, ino, parent, [name] + names)
  {
    hide To, Dotted, Represents, ModeSays;
    var d, nm := NamedExactlyOnce(t, cur);
    NoSelfEntry(t, d, nm);
    assert ([name] + names)[1..] == names;
    forall p | AllPlain(p) && Walk(t, ROOT, p) == ino ensures Via(t, p, parent, [name] + names) {
      ViaUp(t, p, cur, names, parent, name);
    }
  }

  lemma AtTop(s: State, t: Tree, ino: nat, names: seq<Name>)
    requires Depicts(s, t) && Climbed(t, ino, ROOT, names)
    ensures Walk(t, ROOT, Components(Print(names), 0)) == ino
    ensures forall p :: AllPlain(p) && Walk(t, ROOT, p) == ino ==> p == names
  {
    hide To, NamedOnce, Dotted, Represents, ModeSays, Components;
    PrintRoundTrip(names);
    forall p | AllPlain(p) && Walk(t, ROOT, p) == ino ensures p == names { ViaTop(t, p, names); }
  }

  // ---------------------------------------------------------------- tidiness

  /** Every inode that is no directory has a size within bounds and nothing but
      zeros past its end. */
  ghost predicate Tidy(s: State)
    requires Shape(s)
  {
    forall i :: IsIno(i) && InodeOf(s, i).mode != MODE_DIR ==> InodeOf(s, i).size <= MAX_FILE_SIZE && TailZero(s, i)
  }

  ghost predicate Harmless(s: State, i: nat)
    requires Shape(s)
  {
    IsIno(i) ==> InodeOf(s, i).mode == MODE_DIR || (InodeOf(s, i).size <= MAX_FILE_SIZE && TailZero(s, i))
  }

  lemma TidyTwo(s: State, t: State, i: nat, j: nat)
    requires Shape(s) && Shape(t) && Tidy(s) && Kept(s, t, {i, j}) && Harmless(t, i) && Harmless(t, j)
    ensures Tidy(t)
  {
    hide Kept, ByteAt;
    forall k | IsIno(k) && InodeOf(t, k).mode != MODE_DIR
      ensures InodeOf(t, k).size <= MAX_FILE_SIZE && TailZero(t, k)
    {
      if k != i && k != j { KeptFile(s, t, {i, j}, k); }
    }
  }

  lemma BlankHarmless(s: State, i: nat)
    requires Shape(s) && IsIno(i) && Blank(s, i) && InodeOf(s, i).size == 0
    ensures Harmless(s, i) && Content(s, i) == []
  {
    forall p | 0 <= p ensures ByteAt(s, i, p) == 0 { assert BlockAt(s, i, p / BLOCK_SIZE) == ZeroBlock(); }
  }

  lemma HarmlessKept(s: State, t: State, ino: nat, i: nat)
    requires Shape(s) && Shape(t) && OthersSame(s, t, ino) && i != ino && Harmless(s, i)
    ensures Harmless(t, i)
  {
    if IsIno(i) { ContentSame(s, t, ino, i); }
  }

  lemma CreatedKept(s0: State, s3: State, s4: State, ino: nat, parent: nat)
    requires Shape(s0) && Shape(s3) && Shape(s4) && IsIno(ino) && IsIno(parent)
    requires InodeOf(s0, ino).mode == MODE_FREE && OthersSame(s0, s3, ino) && Harmless(s3, ino)
    requires OthersSame(s3, s4, parent) && SameOwner(InodeOf(s4, parent), InodeOf(s3, parent))
    ensures Kept(s0, s4, {ino, parent})
    ensures InodeOf(s4, ino).mode == InodeOf(s3, ino).mode
    ensures ino != parent ==> InodeOf(s4, ino).size == InodeOf(s3, ino).size
    ensures InodeOf(s0, parent).mode == MODE_DIR && Tidy(s0) ==> Tidy(s4)
  {
    KeptTwo(s0, s3, s4, ino, parent, {ino, parent});
    SameModes(s0, s3, ino);
    SameModes(s3, s4, parent);
    hide Kept, OthersSame, Tidy, TailZero;
    if InodeOf(s0, parent).mode == MODE_DIR && Tidy(s0) {
      HarmlessKept(s3, s4, parent, ino);
      TidyTwo(s0, s4, ino, parent);
    }
  }

  lemma AbandonedKept(s0: State, s: State, u: State, ino: nat)
    requires Shape(s0) && Shape(s) && Shape(u) && IsIno(ino)
    requires OthersSame(s0, s, ino) && OthersSame(s, u, ino) && Blank(u, ino) && InodeOf(u, ino).size == 0
    ensures Kept(s0, u, {ino}) && (Tidy(s0) ==> Tidy(u))
  {
    hide Kept, OthersSame, Tidy, TailZero, Blank;
    KeptTwo(s0, s, u, ino, ino, {ino});
    BlankHarmless(u, ino);
    assert {ino, ino} == {ino};
    if Tidy(s0) { TidyTwo(s0, u, ino, ino); }
  }

  /** A change to one file that keeps its mode leaves the tree as it was. */
  lemma FileChanged(s: State, u: State, ino: nat, t: Tree)
    requires Depicts(s, t) && Shape(u) && IsIno(ino) && InodeOf(s, ino).mode != MODE_DIR
    requires OthersSame(s, u, ino) && InodeOf(u, ino).mode == InodeOf(s, ino).mode
    ensures Depicts(u, t)
  {
    hide WellFormed, Represents;
    SameModes(s, u, ino);
    forall d | d in t.dirs ensures Represents(u, d, t.dirs[d]) {
      assert Live(t, d);
      assert ModeSays(InodeOf(s, d).mode, d, t) && ModeSays(InodeOf(s, ino).mode, ino, t);
      DirKept(s, u, ino, d, t.dirs[d]);
    }
  }

  lemma TreeSynced(s: State, u: State, t: Tree)
    requires Depicts(s, t) && Inv(s) && Shape(u) && u.dataStart == s.dataStart && u.bits == s.bits
    requires u.inodes == s.inodes
    requires |u.disk| == |s.disk| && forall b :: s.dataStart <= b < |s.disk| ==> u.disk[b] == s.disk[b]
    ensures Depicts(u, t)
  {
    hide WellFormed, Represents;
    MetaWritten(s, u);
    forall d | d in t.dirs ensures Represents(u, d, t.dirs[d]) {
      assert Live(t, d);
      RepresentsFrame(s, u, d, t.dirs[d]);
    }
  }
}
