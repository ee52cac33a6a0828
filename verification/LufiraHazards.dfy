/** What destroys the directory tree: an entry that leads to a free inode, a live inode
    that nothing names any more, a name that stands twice. After any of these no tree at
    all describes the disk. */
module LufiraHazards {
  import opened LufiraFormat
  import opened LufiraState
  import opened LufiraContent
  import opened LufiraDirs
  import opened LufiraTree
  import opened LufiraNamespace

  /** The modes and directory blocks of `u` fit no well-formed tree. */
  ghost predicate Broken(u: State) { forall t :: !Depicts(u, t) }

  /** A live slot `e` of directory `d`: its name and where it leads. */
  ghost predicate Leads(u: State, d: nat, e: nat, nm: Name, x: nat) {
    && Shape(u) && IsIno(d) && InodeOf(u, d).mode == MODE_DIR && e < Slots(u, d)
    && DIno(u, d, e) == x != 0 && DName(u, d, e) == nm
  }

  /** All live slots of `d` called `nm` lead to `x`, and there is one. */
  ghost predicate OnlyLeads(u: State, d: nat, nm: Name, x: nat) {
    && (exists e :: Leads(u, d, e, nm, x))
    && (forall e, y :: Leads(u, d, e, nm, y) ==> y == x)
  }

  lemma OnlyFound(u: State, d: nat, nm: Name, x: nat, ok: bool, ino: nat)
    requires OnlyLeads(u, d, nm, x) && Shape(u)
    requires ok ==> IsIno(d) && InodeOf(u, d).mode == MODE_DIR && ino != 0
    requires ok ==> exists e :: 0 <= e < Slots(u, d) && DIno(u, d, e) == ino && DName(u, d, e) == nm
    requires !ok && IsIno(d) && InodeOf(u, d).mode == MODE_DIR ==>
               forall e :: 0 <= e < Slots(u, d) && DIno(u, d, e) != 0 ==> DName(u, d, e) != nm
    ensures ok && ino == x
  {
    hide DIno, DName;
    var e :| Leads(u, d, e, nm, x);
    if ok {
      var f :| 0 <= f < Slots(u, d) && DIno(u, d, f) == ino && DName(u, d, f) == nm;
      assert Leads(u, d, f, nm, ino);
    }
  }

  /** In a depicted state, slots are entries. */
  lemma LeadsTo(u: State, t: Tree, d: nat, e: nat, nm: Name, x: nat)
    requires Depicts(u, t) && Leads(u, d, e, nm, x)
    ensures d in t.dirs && To(t, d, nm) == x
  {
    hide WellFormed, Represents;
    ScanMeans(u, t, d, nm);
  }

  /** And entries are slots. */
  lemma HasSlot(u: State, t: Tree, d: nat, nm: Name) returns (e: nat)
    requires Depicts(u, t) && To(t, d, nm) != 0
    ensures Leads(u, d, e, nm, To(t, d, nm))
  {
    hide WellFormed;
    DirOfTree(u, t, d);
    assert Listed(u, d, nm);
    e :| 0 <= e < Slots(u, d) && DIno(u, d, e) != 0 && DName(u, d, e) == nm;
  }

  lemma Dangling(u: State, d: nat, e: nat, nm: Name, x: nat)
    requires Leads(u, d, e, nm, x) && Plain(nm) && IsIno(x) && InodeOf(u, x).mode == MODE_FREE
    ensures Broken(u)
  {
    forall t ensures !Depicts(u, t) {
      if Depicts(u, t) {
        LeadsTo(u, t, d, e, nm, x);
        EntryTarget(u, t, d, nm);
      }
    }
  }

  lemma Twice(u: State, d: nat, e: nat, f: nat, nm: Name, x: nat, y: nat)
    requires Leads(u, d, e, nm, x) && Leads(u, d, f, nm, y) && e != f
    ensures Broken(u)
  {
    forall t ensures !Depicts(u, t) {
      if Depicts(u, t) { DirOfMode(u, t, d); }
    }
  }

  lemma DirOfMode(u: State, t: Tree, d: nat)
    requires Depicts(u, t) && IsIno(d) && InodeOf(u, d).mode == MODE_DIR
    ensures d in t.dirs && Represents(u, d, t.dirs[d])
  {
    hide Represents, WellFormed;
  }

  /** Slots of `u` that lead to `c`, outside `c` itself, are slots of `s`. */
  ghost predicate NoNewNames(s: State, u: State, c: nat) {
    forall d, e, nm :: d != c && Plain(nm) && Leads(u, d, e, nm, c) ==> exists f :: Leads(s, d, f, nm, c)
  }

  /** A live inode whose only name, if it had one, was in a directory that is gone. */
  lemma Nameless(s: State, t: Tree, u: State, c: nat)
    requires Depicts(s, t) && Shape(u) && IsIno(c) && c != ROOT && InodeOf(u, c).mode != MODE_FREE
    requires NoNewNames(s, u, c)
    requires forall d, nm :: Plain(nm) && To(t, d, nm) == c ==> IsIno(d) && InodeOf(u, d).mode != MODE_DIR
    ensures Broken(u)
  {
    forall t' ensures !Depicts(u, t') {
      if Depicts(u, t') { NamelessNot(s, t, u, c, t'); }
    }
  }

  lemma NamelessNot(s: State, t: Tree, u: State, c: nat, t': Tree)
    requires Depicts(s, t) && Shape(u) && IsIno(c) && c != ROOT && InodeOf(u, c).mode != MODE_FREE
    requires NoNewNames(s, u, c)
    requires forall d, nm :: Plain(nm) && To(t, d, nm) == c ==> IsIno(d) && InodeOf(u, d).mode != MODE_DIR
    ensures !Depicts(u, t')
  {
    hide Depicts, WellFormed, Represents, To, Live;
    if Depicts(u, t') {
      DepictsLive(u, t', c);
      var d, nm := NamedExactlyOnce(t', c);
      NoSelfEntry(t', d, nm);
      var e := HasSlot(u, t', d, nm);
      var f :| Leads(s, d, f, nm, c);
      LeadsTo(s, t, d, f, nm, c);
    }
  }

  lemma DepictsLive(u: State, t: Tree, c: nat)
    requires Depicts(u, t) && IsIno(c) && InodeOf(u, c).mode != MODE_FREE
    ensures WellFormed(t) && Live(t, c) && !Live(t, 0)
  {
    hide Represents;
  }

  // ------------------------------------------------------------ slots that stay

  /** Slots of directories other than `x` stay when only `x` changes. */
  lemma LeadsKept(s: State, u: State, x: nat, d: nat, e: nat, nm: Name, c: nat)
    requires Shape(s) && Shape(u) && OthersSame(s, u, x) && d != x
    ensures Leads(s, d, e, nm, c) <==> Leads(u, d, e, nm, c)
  {
    if IsIno(d) {
      SameModes(s, u, x);
      assert InodeOf(u, d) == InodeOf(s, d);
      assert BlockAt(u, d, e / DIRENTS) == BlockAt(s, d, e / DIRENTS);
    }
  }

  // ------------------------------------------------------------ create

  /** The end of a create that reported success: it made the tree with the new name
      exactly if the parent was a directory without it. */
  lemma CreateOutcome(s0: State, s3: State, s4: State, t: Tree, parent: nat, name: Name, ino: nat, e: nat, isDir: bool)
    requires Depicts(s0, t) && IsIno(parent) && NameOk(name) && IsIno(ino) && !Live(t, ino) && Shape(s3) && Shape(s4)
    requires OthersSame(s0, s3, ino) && InodeOf(s3, ino).mode == if isDir then MODE_DIR else MODE_FILE
    requires isDir ==> Represents(s3, ino, Dots(ino, parent))
    requires OthersSame(s3, s4, parent) && SameOwner(InodeOf(s4, parent), InodeOf(s3, parent))
    requires EntAdded(s3, s4, parent, e, name, ino)
    ensures if parent in t.dirs && To(t, parent, name) == 0 then Depicts(s4, Created(t, parent, name, ino, isDir))
            else Broken(s4)
  {
    hide Depicts, OthersSame, EntAdded, Represents, To, Live, Created, Broken, SameOwner, NameOk;
    if parent in t.dirs && To(t, parent, name) == 0 {
      CreateDone(s0, s3, s4, t, parent, name, ino, e, isDir);
    } else if parent in t.dirs {
      CreateTwice(s0, s3, s4, t, parent, name, ino, e);
    } else {
      CreateAside(s0, s3, s4, t, parent, ino, isDir);
    }
  }

  lemma CreateTwice(s0: State, s3: State, s4: State, t: Tree, parent: nat, name: Name, ino: nat, e: nat)
    requires Depicts(s0, t) && parent in t.dirs && To(t, parent, name) != 0 && IsIno(ino) && !Live(t, ino)
    requires IsIno(parent) && Shape(s3) && Shape(s4) && OthersSame(s0, s3, ino)
    requires SameOwner(InodeOf(s4, parent), InodeOf(s3, parent)) && EntAdded(s3, s4, parent, e, name, ino)
    ensures Broken(s4)
  {
    var x := To(t, parent, name);
    var f := HasSlot(s0, t, parent, name);
    assert parent != ino;
    hide Depicts, Represents, To, Live, Broken;
    LeadsKept(s0, s3, ino, parent, f, name, x);
    hide OthersSame, DIno, DName;
    assert Leads(s4, parent, f, name, x) && Leads(s4, parent, e, name, ino);
    Twice(s4, parent, e, f, name, ino, x);
  }

  lemma CreateAside(s0: State, s3: State, s4: State, t: Tree, parent: nat, ino: nat, isDir: bool)
    requires Depicts(s0, t) && parent !in t.dirs && IsIno(parent) && IsIno(ino) && !Live(t, ino) && Shape(s3)
    requires Shape(s4)
    requires OthersSame(s0, s3, ino) && InodeOf(s3, ino).mode == if isDir then MODE_DIR else MODE_FILE
    requires OthersSame(s3, s4, parent) && SameOwner(InodeOf(s4, parent), InodeOf(s3, parent))
    ensures Broken(s4)
  {
    NotLiveFacts(s0, t, parent, ino);
    SameModes(s0, s3, ino);
    SameModes(s3, s4, parent);
    hide Depicts, Represents, To, Live, Broken, OthersSame;
    forall d, e, nm | d != ino && Plain(nm) && Leads(s4, d, e, nm, ino) ensures exists f :: Leads(s0, d, f, nm, ino) {
      assert d != parent;
      LeadsKept(s3, s4, parent, d, e, nm, ino);
      LeadsKept(s0, s3, ino, d, e, nm, ino);
    }
    Nameless(s0, t, s4, ino);
  }

  lemma NotLiveFacts(s: State, t: Tree, parent: nat, ino: nat)
    requires Depicts(s, t) && !Live(t, ino) && IsIno(parent) && parent !in t.dirs
    ensures ino != ROOT && InodeOf(s, parent).mode != MODE_DIR
    ensures ino != 0 ==> forall d, nm :: Plain(nm) ==> To(t, d, nm) != ino
  {
    hide Represents;
  }

  // ------------------------------------------------------------ unlink

  /** The end of an unlink that reported success: it made the tree without the name
      exactly if a plain name of a file or empty directory was really removed. */
  lemma UnlinkOutcome(s0: State, s1: State, s2: State, t: Tree, parent: nat, name: Name, gone: bool, e: nat)
    requires Depicts(s0, t) && parent in t.dirs && To(t, parent, name) != 0 && To(t, parent, name) != ROOT
    requires Shape(s1) && Shape(s2) && IsIno(To(t, parent, name))
    requires OthersSame(s0, s1, To(t, parent, name)) && InodeOf(s1, To(t, parent, name)).mode == MODE_FREE
    requires OthersSame(s1, s2, parent) && s2.inodes == s1.inodes && (!gone ==> s2 == s1) && IsIno(parent)
    requires gone ==>
               e < Slots(s1, parent) && DIno(s1, parent, e) != 0 && DName(s1, parent, e) == name
                 && EntRemoved(s1, s2, parent, e)
    ensures if Plain(name) && Empty(t, To(t, parent, name)) && gone then Depicts(s2, Removed(t, parent, name))
            else Broken(s2)
  {
    hide Depicts, OthersSame, EntRemoved, Represents, To, Live, Removed, Broken, Empty, DIno, DName, Slots;
    var x := To(t, parent, name);
    if Plain(name) && Empty(t, x) && gone {
      UnlinkDone(s0, s1, s2, t, parent, name, e);
    } else if !Empty(t, x) {
      UnlinkFull(s0, s1, s2, t, x, parent, gone, e);
    } else if Plain(name) {
      UnlinkLeft(s0, s1, t, parent, name);
    } else {
      UnlinkDot(s0, s1, s2, t, parent, name);
    }
  }

  /** A directory that was not empty: its children have no name left. */
  lemma UnlinkFull(s0: State, s1: State, s2: State, t: Tree, x: nat, parent: nat, gone: bool, e: nat)
    requires Depicts(s0, t) && !Empty(t, x) && IsIno(x) && Shape(s1) && Shape(s2) && IsIno(parent)
    requires OthersSame(s0, s1, x) && InodeOf(s1, x).mode == MODE_FREE
    requires OthersSame(s1, s2, parent) && s2.inodes == s1.inodes && (!gone ==> s2 == s1)
    requires gone ==> EntRemoved(s1, s2, parent, e)
    ensures Broken(s2)
  {
    var nm :| Plain(nm) && To(t, x, nm) != 0;
    var c := To(t, x, nm);
    ChildFacts(s0, t, x, nm);
    SameModes(s0, s1, x);
    hide Depicts, Represents, To, Live, Broken;
    forall d, f, mm | d != c && Plain(mm) && Leads(s2, d, f, mm, c) ensures exists g :: Leads(s0, d, g, mm, c) {
      assert d != x;
      LeadsBefore(s1, s2, parent, gone, e, d, f, mm, c);
      LeadsKept(s0, s1, x, d, f, mm, c);
    }
    Nameless(s0, t, s2, c);
  }

  /** Removing an entry adds no slot. */
  lemma LeadsBefore(s1: State, s2: State, parent: nat, gone: bool, e: nat, d: nat, f: nat, nm: Name, c: nat)
    requires Shape(s1) && Shape(s2) && IsIno(parent) && OthersSame(s1, s2, parent) && s2.inodes == s1.inodes
    requires (!gone ==> s2 == s1) && (gone ==> EntRemoved(s1, s2, parent, e)) && Leads(s2, d, f, nm, c)
    ensures Leads(s1, d, f, nm, c)
  {
    if d != parent {
      LeadsKept(s1, s2, parent, d, f, nm, c);
    } else {
      hide DIno, DName, OthersSame;
    }
  }

  lemma ChildFacts(s: State, t: Tree, x: nat, nm: Name)
    requires Depicts(s, t) && Plain(nm) && To(t, x, nm) != 0
    ensures var c := To(t, x, nm);
            && IsIno(c) && c != ROOT && c != x && InodeOf(s, c).mode != MODE_FREE
            && forall d, mm :: Plain(mm) && To(t, d, mm) == c ==> d == x
  {
    EntryTarget(s, t, x, nm);
    hide Represents;
  }

  /** The entry of the freed inode was not removed. */
  lemma UnlinkLeft(s0: State, s1: State, t: Tree, parent: nat, name: Name)
    requires Depicts(s0, t) && Plain(name) && To(t, parent, name) != 0 && Shape(s1) && IsIno(To(t, parent, name))
    requires OthersSame(s0, s1, To(t, parent, name)) && InodeOf(s1, To(t, parent, name)).mode == MODE_FREE
    ensures Broken(s1)
  {
    hide Represents, Broken, OthersSame;
    var x := To(t, parent, name);
    EntryTarget(s0, t, parent, name);
    var f := HasSlot(s0, t, parent, name);
    LeadsKept(s0, s1, x, parent, f, name, x);
    Dangling(s1, parent, f, name, x);
  }

  /** A dot entry as the name: the directory itself is freed, and the entry that names it
      in its own parent stays. Its parent, for the other dot, is never empty. */
  lemma UnlinkDot(s0: State, s1: State, s2: State, t: Tree, parent: nat, name: Name)
    requires Depicts(s0, t) && parent in t.dirs && !Plain(name) && To(t, parent, name) != ROOT
    requires Empty(t, To(t, parent, name))
    requires Shape(s1) && Shape(s2) && IsIno(To(t, parent, name)) && OthersSame(s0, s1, To(t, parent, name))
    requires OthersSame(s1, s2, parent) && s2.inodes == s1.inodes && InodeOf(s1, To(t, parent, name)).mode == MODE_FREE
    ensures Broken(s2)
  {
    var g, nm := DotTarget(s0, t, parent, name);
    var f := HasSlot(s0, t, g, nm);
    hide Depicts, Represents, To, Empty, Broken, OthersSame;
    LeadsKept(s0, s1, parent, g, f, nm, parent);
    LeadsKept(s1, s2, parent, g, f, nm, parent);
    Dangling(s2, g, f, nm, parent);
  }

  lemma DotTarget(s: State, t: Tree, parent: nat, name: Name) returns (g: nat, nm: Name)
    requires Depicts(s, t) && parent in t.dirs && !Plain(name) && To(t, parent, name) != ROOT
    requires Empty(t, To(t, parent, name))
    ensures To(t, parent, name) == parent && Plain(nm) && To(t, g, nm) == parent && g != parent
  {
    hide Represents;
    assert parent != ROOT;
    g, nm := NamedExactlyOnce(t, parent);
    NoSelfEntry(t, g, nm);
  }

  // ------------------------------------------------- what the calls mean

  /** Create in terms of the tree. An existing name is refused when the check could read
      the directory. A success makes the new tree exactly if the parent was a directory
      without the name, and otherwise destroys the tree. */
  ghost predicate CreateMeans(s: State, u: State, t: Tree, parent: nat, name: Name, ino: nat, isDir: bool,
    scanOk: bool, r: int) {
    && (r == -1 ==> name == [] || To(t, parent, name) != 0)
    && (name == [] || (scanOk && To(t, parent, name) != 0) ==> r == -1)
    && (r == -2 ==> forall i :: IsIno(i) ==> Live(t, i))
    && (r == -3 ==> Depicts(u, t) && !Live(t, ino))
    && (r == 0 ==> !Live(t, ino) && IsIno(parent))
    && (r == 0 ==>
          if parent in t.dirs && To(t, parent, name) == 0 then Depicts(u, Created(t, parent, name, ino, isDir))
            else Broken(u))
  }

  /** Unlink in terms of the tree. A success makes the tree without the name exactly if a
      plain name of a file or empty directory was removed, which it is when the scans could
      read the directories; otherwise it destroys the tree. The blocks are given back either way. */
  ghost predicate UnlinkMeans(s: State, u: State, t: Tree, parent: nat, name: Name, ino: nat, gone: bool,
                              scanOk: bool, heapOk: bool, r: int) {
    var x := To(t, parent, name);
    && (heapOk ==> (r == -1 <==> name == [] || x == 0))
    && (r == -2 && scanOk ==> x != 0 && !Empty(t, x))
    && (r == -3 ==> x == ROOT)
    && (r == 0 ==> name != [] && ino == x != 0 && x != ROOT && parent in t.dirs)
    && (r == 0 && scanOk ==> Empty(t, x) && (Plain(name) ==> gone))
    && (r == 0 ==> if Plain(name) && Empty(t, x) && gone then Depicts(u, Removed(t, parent, name)) else Broken(u))
    && (r == 0 ==> Emptied(s, u.bits, ino, heapOk))
  }

  /** A lookup in a depicted directory: what found and not found mean. */
  lemma FoundMeans(s: State, t: Tree, d: nat, name: Name, found: bool, scanOk: bool)
    requires Depicts(s, t)
    requires found ==> IsIno(d) && InodeOf(s, d).mode == MODE_DIR
    requires found ==> exists e :: 0 <= e < Slots(s, d) && DIno(s, d, e) != 0 && DName(s, d, e) == name
    requires !found && scanOk && IsIno(d) && InodeOf(s, d).mode == MODE_DIR ==>
               forall x :: 0 <= x < Slots(s, d) && DIno(s, d, x) != 0 ==> DName(s, d, x) != name
    ensures found ==> d in t.dirs && To(t, d, name) != 0
    ensures !found && scanOk ==> To(t, d, name) == 0
  {
    hide Represents, WellFormed, DIno, DName;
    if d in t.dirs { DirOfTree(s, t, d); ScanMeans(s, t, d, name); }
  }

  lemma FoundIs(s: State, t: Tree, d: nat, name: Name, x: nat)
    requires Depicts(s, t) && IsIno(d) && InodeOf(s, d).mode == MODE_DIR && x != 0
    requires exists e :: 0 <= e < Slots(s, d) && DIno(s, d, e) == x && DName(s, d, e) == name
    ensures d in t.dirs && To(t, d, name) == x && IsIno(x)
    ensures InodeOf(s, x).mode == MODE_DIR <==> x in t.dirs
    ensures x !in t.dirs ==> Empty(t, x)
  {
    hide Represents, DIno, DName;
    ScanMeans(s, t, d, name);
    if Plain(name) { EntryTarget(s, t, d, name); } else { DotIsDir(s, t, d, name); }
  }

  lemma DotIsDir(s: State, t: Tree, d: nat, name: Name)
    requires Depicts(s, t) && d in t.dirs && !Plain(name)
    ensures To(t, d, name) in t.dirs && IsIno(To(t, d, name)) && InodeOf(s, To(t, d, name)).mode == MODE_DIR
  {
    hide Depicts;
    DotItself(s, t, d);
    UpFrom(s, t, d);
    hide To;
    DirOfTree(s, t, To(t, d, name));
  }

  lemma DotItself(s: State, t: Tree, d: nat)
    requires Depicts(s, t) && d in t.dirs
    ensures To(t, d, DOT) == d && d != 0
  {
    hide Represents, Closed, NamedOnce, Reachable;
  }

  /** An inode that is free and empty stays harmless whatever happens next to it. */
  lemma StillHarmless(s: State, u: State, parent: nat, x: nat)
    requires Shape(s) && Shape(u) && OthersSame(s, u, parent) && IsIno(x) && IsIno(parent) && u.inodes == s.inodes
    requires Harmless(s, x) && (x == parent ==> u == s)
    ensures Harmless(u, x) && (InodeOf(s, parent).mode == MODE_DIR || x == parent ==> Harmless(u, parent))
  {
    hide TailZero, OthersSame;
    if x != parent { HarmlessKept(s, u, parent, x); }
  }

  /** What freeing an inode and then changing the directory that named it leaves alone. */
  lemma Released(s0: State, s1: State, s2: State, x: nat, parent: nat, gone: bool)
    requires Shape(s0) && Shape(s1) && Shape(s2) && IsIno(x) && IsIno(parent) && InodeOf(s0, parent).mode == MODE_DIR
    requires OthersSame(s0, s1, x) && Blank(s1, x) && InodeOf(s1, x) == FreeInode()
    requires OthersSame(s1, s2, parent) && s2.inodes == s1.inodes && (!gone ==> s2 == s1) && (x == parent ==> !gone)
    ensures Kept(s0, s2, {x, parent}) && (!gone && x != parent ==> Kept(s0, s2, {x}))
    ensures Tidy(s0) ==> Tidy(s2)
  {
    hide OthersSame, Blank, Kept, Tidy, Harmless, TailZero;
    BlankHarmless(s1, x);
    SameModes(s0, s1, x);
    StillHarmless(s1, s2, parent, x);
    KeptTwo(s0, s1, s2, x, parent, {x, parent});
    if Tidy(s0) { TidyTwo(s0, s2, x, parent); }
    if !gone { SameIsOthersSame(s1, s2, x); KeptTwo(s0, s1, s2, x, x, {x}); }
  }

  /** A new inode `ino` of owner `made` linked into its parent. */
  lemma Linked(s0: State, s3: State, s4: State, made: Inode, ino: nat, parent: nat)
    requires Shape(s0) && Shape(s3) && Shape(s4) && IsIno(ino) && IsIno(parent)
    requires InodeOf(s0, ino).mode == MODE_FREE && OthersSame(s0, s3, ino) && SameOwner(InodeOf(s3, ino), made)
    requires made.mode == MODE_DIR || (InodeOf(s3, ino) == made && Harmless(s3, ino))
    requires OthersSame(s3, s4, parent) && SameOwner(InodeOf(s4, parent), InodeOf(s3, parent))
    ensures Kept(s0, s4, {ino, parent}) && SameOwner(InodeOf(s4, ino), made)
    ensures ino != parent ==> SameOwner(InodeOf(s4, parent), InodeOf(s0, parent))
    ensures ino != parent ==> InodeOf(s4, ino) == InodeOf(s3, ino)
    ensures ino != parent && Blank(s3, ino) ==> Blank(s4, ino)
    ensures InodeOf(s0, parent).mode == MODE_DIR && Tidy(s0) ==> Tidy(s4)
  {
    hide Kept, Tidy, TailZero, BlockAt, Blank;
    CreatedKept(s0, s3, s4, ino, parent);
    if ino != parent { BlankKept(s3, s4, parent, ino); }
  }

  lemma BlankKept(s: State, u: State, parent: nat, x: nat)
    requires Shape(s) && Shape(u) && OthersSame(s, u, parent) && IsIno(x) && x != parent
    ensures Blank(s, x) ==> Blank(u, x)
  {}
}
