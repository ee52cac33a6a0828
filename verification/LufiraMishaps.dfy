/** The inputs at which create and unlink destroy the tree, as runs of the volume: what the
    layer above lets through, and scans that a failed `kmalloc` turns into "not found". */
module LufiraMishaps {
  import opened LufiraFormat
  import opened LufiraMeta
  import opened LufiraState
  import opened LufiraContent
  import opened LufiraDirs
  import opened LufiraTree
  import opened LufiraNamespace
  import opened LufiraHazards
  import opened LufiraAbstract
  import opened LufiraVolume
  import opened LufiraRuns
  import opened LufiraCount
  import opened LufiraFresh

  /** Why a create that passed its check can still fail. */
  ghost predicate NoRoom(s: State, u: State, t: Tree, parent: nat, r: int)
    requires Shape(s) && Shape(u) && IsIno(parent)
  {
    || (r == -2 && forall i :: IsIno(i) ==> Live(t, i))
    || (r == -3 && (DirMaxed(s, parent) || Full(u)))
  }

  /** The name exists, and the check cannot read the directory: the name is made again, and no
      tree describes the disk any more. */
  method DuplicateName(fs: LufiraFs, parent: U32, name: Name, mode: U32, ghost t: Tree) returns (r: int)
    requires fs.Valid() && fs.heapOk && fs.starved && (mode == MODE_FILE || mode == MODE_DIR)
    requires Depicts(fs.S(), t) && To(t, parent, name) != 0
    modifies fs, fs.image, fs.dirty
    ensures fs.Valid() && IsIno(parent)
    ensures if r == 0 then Broken(fs.S()) else NoRoom(old(fs.S()), fs.S(), t, parent, r)
    ensures mode == MODE_FILE && Spare(old(fs.S()), parent) ==> r != -3
  {
    hide LufiraFs.MetaOk, Inv, Depicts, Kept, Tidy, Broken, Spill, Blank, Full, DirMaxed, Live, Spare;
    NamesOk(fs.S(), t, parent, name);
    DirOfTree(fs.S(), t, parent);
    var ino;
    r, ino := fs.Create(parent, name, mode, 0, 0, FILE_PERM, false, t);
  }

  /** The parent is a regular file: nothing in the way of the call checks its mode. */
  method CreateInFile(fs: LufiraFs, parent: U32, name: Name, mode: U32, ghost t: Tree) returns (r: int)
    requires fs.Valid() && fs.heapOk && (mode == MODE_FILE || mode == MODE_DIR) && NameOk(name)
    requires Depicts(fs.S(), t) && parent in t.files
    modifies fs, fs.image, fs.dirty
    ensures fs.Valid() && IsIno(parent)
    ensures if r == 0 then Broken(fs.S()) else NoRoom(old(fs.S()), fs.S(), t, parent, r)
  {
    hide LufiraFs.MetaOk, Inv, Depicts, Kept, Tidy, Broken, Spill, Blank, Full, DirMaxed, Live;
    DepictsReadable(fs.S(), t);
    var ino;
    r, ino := fs.Create(parent, name, mode, 0, 0, FILE_PERM, true, t);
  }

  /** A name whose directory cannot be read for the removal: its inode is freed, empty
      directory or not, and the entry stays. */
  method UnlinkUnread(fs: LufiraFs, parent: U32, name: Name, ghost t: Tree) returns (r: int)
    requires fs.Valid() && fs.heapOk && fs.starved && Depicts(fs.S(), t) && Plain(name) && To(t, parent, name) != 0
    modifies fs, fs.image, fs.dirty
    ensures fs.Valid() && r == 0 && Broken(fs.S())
  {
    hide LufiraFs.MetaOk, Inv, Depicts, Kept, Tidy, Broken, Spill, To;
    NamesOk(fs.S(), t, parent, name);
    EntryTarget(fs.S(), t, parent, name);
    ghost var ino, gone;
    r, ino, gone := fs.Unlink(parent, name, false, t);
  }

  /** The dot entry of an empty directory other than the root: the directory is freed, and its
      name in the directory above leads to a free inode. */
  method UnlinkDotEntry(fs: LufiraFs, dir: U32, ghost t: Tree) returns (r: int)
    requires fs.Valid() && fs.heapOk && Depicts(fs.S(), t) && dir in t.dirs && dir != ROOT && Empty(t, dir)
    modifies fs, fs.image, fs.dirty
    ensures fs.Valid() && r == 0 && Broken(fs.S())
  {
    hide LufiraFs.MetaOk, Inv, Depicts, Kept, Tidy, Broken, Spill, To;
    DotItself(fs.S(), t, dir);
    ghost var ino, gone;
    r, ino, gone := fs.Unlink(dir, DOT, true, t);
  }

  // ------------------------------------------------- from a formatted volume

  lemma RootAlone()
    ensures To(RootTree(), ROOT, DOT) == ROOT && !Live(RootTree(), 2)
    ensures forall nm :: Plain(nm) ==> To(RootTree(), ROOT, nm) == 0
  {}

  /** On a new volume: the name dot made in the root while the check has no memory. */
  method DotAgain(total: nat) returns (fs: LufiraFs, r: int)
    requires Geometry(total).Good()
    ensures fs.Valid() && r == 0 && Broken(fs.S())
  {
    hide LufiraFs.MetaOk, Inv, Depicts, Tidy, Broken, Full, DirMaxed, Live, Spare, To;
    fs := Format(total);
    fs.SetStarved(true);
    RootAlone();
    r := DuplicateName(fs, ROOT, DOT, MODE_FILE, RootTree());
    assert IsIno(2);
  }

  /** On a new volume: a file is made, and unlinked while the scans have no memory. */
  method MadeAndLost(total: nat, name: Name) returns (fs: LufiraFs, r: int)
    requires Geometry(total).Good() && NameOk(name) && Plain(name)
    ensures fs.Valid() && r == 0 && Broken(fs.S())
  {
    hide LufiraFs.MetaOk, Inv, Depicts, Broken, OnlyLeads, NameOk;
    var ino;
    fs, ino := OneFile(total, name);
    r := UnlinkUnread(fs, ROOT, name, Created(RootTree(), ROOT, name, ino, false));
  }

  /** In a depicted state an entry is the only one of its name. */
  lemma DepictsOnly(s: State, t: Tree, d: nat, nm: Name)
    requires Depicts(s, t) && To(t, d, nm) != 0
    ensures OnlyLeads(s, d, nm, To(t, d, nm))
  {
    hide Depicts, Leads, To;
    var e := HasSlot(s, t, d, nm);
    forall f, y | Leads(s, d, f, nm, y) ensures y == To(t, d, nm) { LeadsTo(s, t, d, f, nm, y); }
  }

  lemma OnlyLeadsKept(s: State, u: State, x: nat, d: nat, nm: Name)
    requires Shape(s) && Shape(u) && Kept(s, u, {x}) && d != x && OnlyLeads(s, d, nm, x)
    ensures OnlyLeads(u, d, nm, x)
  {
    hide BlockAt;
    forall e: nat, y: nat ensures Leads(u, d, e, nm, y) <==> Leads(s, d, e, nm, y) {
      if IsIno(d) { assert BlockAt(u, d, e / DIRENTS) == BlockAt(s, d, e / DIRENTS); }
    }
    hide Leads, Kept;
    var e :| Leads(s, d, e, nm, x);
    assert Leads(u, d, e, nm, x);
  }

  /** A file is made, unlinked while the scans have no memory, and unlinked again: the entry
      then leads to a record that is free already, which is counted a second time. */
  method FreedTwice(total: nat, name: Name) returns (fs: LufiraFs, r: int)
    requires Geometry(total).Good() && NameOk(name) && Plain(name)
    ensures fs.Valid() && r == 0 && !InodesCounted(fs)
  {
    hide LufiraFs.MetaOk, Inv, Depicts, Tidy, Broken, Full, DirMaxed, Spare, Spill, Kept, Blank, NameOk, OnlyLeads;
    var ino;
    fs, ino := OneFile(total, name);
    ghost var s, n, x, gone := fs.S(), fs.sb.freeInodes, 0, false;
    r, x, gone := fs.Unlink(ROOT, name, false, Created(RootTree(), ROOT, name, ino, false));
    assert name != [] by { NameNotEmpty(name); }
    FreedCount(s.inodes, ino - 1, n);
    OnlyLeadsKept(s, fs.S(), ino, ROOT, name);
    s, n := fs.S(), fs.sb.freeInodes;
    r, x, gone := fs.Unlink(ROOT, name, true, RootTree());
    FreedCount(s.inodes, ino - 1, n);
  }

  /** A new volume with one file. */
  method OneFile(total: nat, name: Name) returns (fs: LufiraFs, ino: nat)
    requires Geometry(total).Good() && NameOk(name) && Plain(name)
    ensures fs.Valid() && fs.heapOk && fs.starved && InodesCounted(fs) && IsIno(ino) && ino != ROOT
    ensures Depicts(fs.S(), Created(RootTree(), ROOT, name, ino, false)) && InodeOf(fs.S(), ino).mode == MODE_FILE
    ensures OnlyLeads(fs.S(), ROOT, name, ino) && fresh(fs) && fresh(fs.image) && fresh(fs.dirty)
  {
    hide LufiraFs.MetaOk, Inv, Depicts, Tidy, Broken, Full, DirMaxed, Spare, Spill, Kept, Blank, NameOk, OnlyLeads;
    fs := Format(total);
    fs.SetStarved(true);
    RootAlone();
    ghost var s, n := fs.S(), fs.sb.freeInodes;
    DirOfTree(s, RootTree(), ROOT);
    var r;
    r, ino := fs.Create(ROOT, name, MODE_FILE, 0, 0, FILE_PERM, true, RootTree());
    assert IsIno(2) && name != [] by { NameNotEmpty(name); }
    ghost var t := Created(RootTree(), ROOT, name, ino, false);
    MakeCounts(s, fs.S(), RootTree(), t, ROOT, name, ino, false, r, n);
    assert To(t, ROOT, name) == ino;
    DepictsOnly(fs.S(), t, ROOT, name);
  }

  lemma NameNotEmpty(name: Name)
    requires NameOk(name)
    ensures name != []
  {}
}
