/** The directory tree as an abstract value: what makes it well formed, and that
    creating and removing an entry keep it so. */
module LufiraTree {
  import opened LufiraFormat
  import opened LufiraDirs

  const DOT: Name := [46]
  const DOTDOT: Name := [46, 46]

  predicate Plain(nm: Name) { nm != DOT && nm != DOTDOT }

  /** Directories with their entries, and the inode numbers of regular files. */
  datatype Tree = Tree(dirs: map<nat, Dir>, files: set<nat>)

  predicate Live(t: Tree, x: nat) { x in t.dirs || x in t.files }

  /** Where entry `nm` of directory `d` leads; 0 if there is none. */
  function To(t: Tree, d: nat, nm: Name): nat {
    if d in t.dirs && nm in t.dirs[d] then t.dirs[d][nm] else 0
  }

  /** Following names from `d`; 0 if some name is missing. */
  function Walk(t: Tree, d: nat, path: seq<Name>): nat
    decreases |path|
  {
    if path == [] then d
    else if To(t, d, path[0]) == 0 then 0
    else Walk(t, To(t, d, path[0]), path[1..])
  }

  predicate AllPlain(path: seq<Name>) { forall k :: 0 <= k < |path| ==> Plain(path[k]) }

  ghost predicate Reachable(t: Tree, x: nat) {
    exists path :: AllPlain(path) && Walk(t, ROOT, path) == x
  }

  /** Plain entries lead to live inodes other than the root, and a directory they
      lead to points back. */
  ghost predicate Closed(t: Tree) {
    forall d, nm :: Plain(nm) && To(t, d, nm) != 0 ==>
      Live(t, To(t, d, nm)) && To(t, d, nm) != ROOT && (To(t, d, nm) in t.dirs ==> To(t, To(t, d, nm), DOTDOT) == d)
  }

  /** No inode has two names. */
  ghost predicate NamedOnce(t: Tree) {
    forall d, nm, e, mm :: Plain(nm) && Plain(mm) && To(t, d, nm) != 0 ==>
      To(t, d, nm) == To(t, e, mm) ==> d == e && nm == mm
  }

  ghost predicate Dotted(t: Tree) {
    && ROOT in t.dirs && To(t, ROOT, DOTDOT) == ROOT
    && forall d :: d in t.dirs ==> To(t, d, DOT) == d && To(t, d, DOTDOT) != 0
  }

  ghost predicate WellFormed(t: Tree) {
    && t.dirs.Keys !! t.files && !Live(t, 0)
    && Dotted(t) && Closed(t) && NamedOnce(t)
    && forall x :: Live(t, x) ==> Reachable(t, x)
  }

  lemma WalkAppend(t: Tree, d: nat, path: seq<Name>, nm: Name)
    requires !Live(t, 0)
    ensures Walk(t, d, path + [nm]) == To(t, Walk(t, d, path), nm)
    decreases |path|
  {
    if path == [] {
      assert path + [nm] == [nm] && [nm][1..] == [];
    } else if To(t, d, path[0]) != 0 {
      assert (path + [nm])[1..] == path[1..] + [nm];
      WalkAppend(t, To(t, d, path[0]), path[1..], nm);
    }
  }

  /** Every live inode but the root is the target of exactly one plain entry. */
  lemma NamedExactlyOnce(t: Tree, x: nat) returns (d: nat, nm: Name)
    requires WellFormed(t) && Live(t, x) && x != ROOT
    ensures Plain(nm) && To(t, d, nm) == x
    ensures forall e, mm :: Plain(mm) && To(t, e, mm) == x ==> e == d && mm == nm
  {
    assert Reachable(t, x);
    var p :| AllPlain(p) && Walk(t, ROOT, p) == x;
    hide Dotted, Closed, Reachable;
    assert p != [];
    var q := p[..|p| - 1];
    assert p == q + [p[|p| - 1]];
    WalkAppend(t, ROOT, q, p[|p| - 1]);
    hide Walk;
    d, nm := Walk(t, ROOT, q), p[|p| - 1];
  }

  /** No directory contains itself under a plain name. */
  lemma NoSelfEntry(t: Tree, d: nat, nm: Name)
    requires WellFormed(t) && To(t, d, nm) != 0 && Plain(nm)
    ensures To(t, d, nm) != d
  {
    if To(t, d, nm) == d {
      assert Reachable(t, d);
      var p :| AllPlain(p) && Walk(t, ROOT, p) == d;
      NoPathToSelf(t, d, nm, p);
    }
  }

  lemma NoPathToSelf(t: Tree, d: nat, nm: Name, p: seq<Name>)
    requires Closed(t) && NamedOnce(t) && !Live(t, 0)
    requires To(t, d, nm) == d != 0 && Plain(nm) && AllPlain(p)
    ensures Walk(t, ROOT, p) != d
    decreases |p|
  {
    if p != [] {
      var q := p[..|p| - 1];
      assert p == q + [p[|p| - 1]];
      WalkAppend(t, ROOT, q, p[|p| - 1]);
      NoPathToSelf(t, d, nm, q);
    }
  }

  /** The path `p` reaches `cur` and then takes `names`. */
  predicate Via(t: Tree, p: seq<Name>, cur: nat, names: seq<Name>) {
    |p| >= |names| && p[|p| - |names|..] == names && Walk(t, ROOT, p[..|p| - |names|]) == cur
  }

  lemma LastStep(t: Tree, q: seq<Name>)
    requires q != [] && !Live(t, 0)
    ensures Walk(t, ROOT, q) == To(t, Walk(t, ROOT, q[..|q| - 1]), q[|q| - 1])
  {
    assert q == q[..|q| - 1] + [q[|q| - 1]];
    WalkAppend(t, ROOT, q[..|q| - 1], q[|q| - 1]);
  }

  /** There is only one way to reach `cur`: through the entry that names it. */
  lemma ViaUp(t: Tree, p: seq<Name>, cur: nat, names: seq<Name>, parent: nat, name: Name)
    requires NamedOnce(t) && !Live(t, 0) && AllPlain(p) && Via(t, p, cur, names)
    requires cur != ROOT && cur != 0 && Plain(name) && To(t, parent, name) == cur
    ensures Via(t, p, parent, [name] + names)
  {
    hide To;
    var q := p[..|p| - |names|];
    assert q != [];
    LastStep(t, q);
    assert p[..|p| - |names| - 1] == q[..|q| - 1];
    assert p[|p| - |names| - 1..] == [q[|q| - 1]] + names;
  }

  lemma ViaTop(t: Tree, p: seq<Name>, names: seq<Name>)
    requires Closed(t) && !Live(t, 0) && AllPlain(p) && Via(t, p, ROOT, names)
    ensures p == names
  {
    hide To;
    var q := p[..|p| - |names|];
    if q != [] {
      assert Plain(q[|q| - 1]);
      LastStep(t, q);
    }
    assert p == q + p[|p| - |names|..];
  }

  // ----------------------------------------------------------------- create

  function Created(t: Tree, parent: nat, name: Name, ino: nat, isDir: bool): Tree
    requires parent in t.dirs
  {
    var entries: Dir := t.dirs[parent][name := ino];
    var dirs := t.dirs[parent := entries];
    var dots: Dir := map[DOT := ino, DOTDOT := parent];
    if isDir then Tree(dirs[ino := dots], t.files)
    else Tree(dirs, t.files + {ino})
  }

  lemma CreatedTo(t: Tree, parent: nat, name: Name, ino: nat, isDir: bool, d: nat, nm: Name)
    requires parent in t.dirs && !Live(t, ino)
    ensures To(Created(t, parent, name, ino, isDir), d, nm) ==
            if d == parent && nm == name then ino
            else if isDir && d == ino then (if nm == DOT then ino else if nm == DOTDOT then parent else 0)
            else To(t, d, nm)
  {}

  lemma CreatedLive(t: Tree, parent: nat, name: Name, ino: nat, isDir: bool)
    requires parent in t.dirs && !Live(t, ino)
    ensures forall x :: Live(Created(t, parent, name, ino, isDir), x) <==> Live(t, x) || x == ino
    ensures forall x :: x in Created(t, parent, name, ino, isDir).dirs <==> x in t.dirs || (isDir && x == ino)
    ensures t.dirs.Keys !! t.files ==>
              Created(t, parent, name, ino, isDir).dirs.Keys !! Created(t, parent, name, ino, isDir).files
  {}

  lemma CreatedWalk(t: Tree, parent: nat, name: Name, ino: nat, isDir: bool, d: nat, p: seq<Name>)
    requires parent in t.dirs && To(t, parent, name) == 0 && !Live(t, ino)
    requires Live(t, d) && Closed(t) && AllPlain(p) && Walk(t, d, p) != 0
    ensures Walk(Created(t, parent, name, ino, isDir), d, p) == Walk(t, d, p)
    decreases |p|
  {
    hide To, Created;
    if p != [] {
      CreatedTo(t, parent, name, ino, isDir, d, p[0]);
      CreatedWalk(t, parent, name, ino, isDir, To(t, d, p[0]), p[1..]);
    }
  }

  lemma CreatedLinks(t: Tree, parent: nat, name: Name, ino: nat, isDir: bool)
    requires Dotted(t) && Closed(t) && NamedOnce(t)
    requires parent in t.dirs && To(t, parent, name) == 0 && !Live(t, ino) && parent != 0 && ino != 0 && Plain(name)
    ensures var u := Created(t, parent, name, ino, isDir);
            Dotted(u) && Closed(u) && NamedOnce(u)
  {
    hide To, Created;
    var u := Created(t, parent, name, ino, isDir);
    CreatedLive(t, parent, name, ino, isDir);
    forall d, nm ensures To(u, d, nm) ==
      if d == parent && nm == name then ino
      else if isDir && d == ino then (if nm == DOT then ino else if nm == DOTDOT then parent else 0)
      else To(t, d, nm)
    {
      CreatedTo(t, parent, name, ino, isDir, d, nm);
    }
    hide Live;
    assert Dotted(u);
    assert Closed(u);
    assert NamedOnce(u);
  }

  lemma CreatedReach(t: Tree, parent: nat, name: Name, ino: nat, isDir: bool, x: nat)
    requires WellFormed(t) && parent in t.dirs && To(t, parent, name) == 0 && !Live(t, ino) && ino != 0 && Plain(name)
    requires x == ino || Live(t, x)
    ensures Reachable(Created(t, parent, name, ino, isDir), x)
  {
    var u := Created(t, parent, name, ino, isDir);
    CreatedLive(t, parent, name, ino, isDir);
    CreatedTo(t, parent, name, ino, isDir, parent, name);
    hide To, Created, Closed, NamedOnce;
    var y := if x == ino then parent else x;
    assert Reachable(t, y);
    var p :| AllPlain(p) && Walk(t, ROOT, p) == y;
    CreatedWalk(t, parent, name, ino, isDir, ROOT, p);
    if x == ino {
      WalkAppend(u, ROOT, p, name);
      assert AllPlain(p + [name]);
    }
  }

  /** Creating a new name for a new inode keeps the tree well formed. */
  lemma CreatedWellFormed(t: Tree, parent: nat, name: Name, ino: nat, isDir: bool)
    requires WellFormed(t) && parent in t.dirs && To(t, parent, name) == 0 && !Live(t, ino) && ino != 0
    ensures WellFormed(Created(t, parent, name, ino, isDir))
    ensures forall x :: Live(Created(t, parent, name, ino, isDir), x) <==> Live(t, x) || x == ino
  {
    assert Plain(name);
    hide Reachable, Closed, NamedOnce, To, Created;
    var u := Created(t, parent, name, ino, isDir);
    CreatedLinks(t, parent, name, ino, isDir);
    CreatedLive(t, parent, name, ino, isDir);
    forall x | Live(u, x) ensures Reachable(u, x) { CreatedReach(t, parent, name, ino, isDir, x); }
  }

  // ----------------------------------------------------------------- unlink

  /** Nothing but the two dot entries. */
  ghost predicate Empty(t: Tree, x: nat) { forall nm :: Plain(nm) ==> To(t, x, nm) == 0 }

  ghost predicate Removable(t: Tree, parent: nat, name: Name) {
    && To(t, parent, name) != 0 && Plain(name)
    && Empty(t, To(t, parent, name))
  }

  function Removed(t: Tree, parent: nat, name: Name): Tree
    requires parent in t.dirs
  {
    var x := To(t, parent, name);
    Tree(t.dirs[parent := t.dirs[parent] - {name}] - {x}, t.files - {x})
  }

  lemma RemovedTo(t: Tree, parent: nat, name: Name, d: nat, nm: Name)
    requires parent in t.dirs && To(t, parent, name) != parent
    ensures To(Removed(t, parent, name), d, nm) ==
            if (d == parent && nm == name) || d == To(t, parent, name) then 0 else To(t, d, nm)
  {}

  lemma RemovedLive(t: Tree, parent: nat, name: Name)
    requires parent in t.dirs && To(t, parent, name) != parent
    ensures forall x :: Live(Removed(t, parent, name), x) <==> Live(t, x) && x != To(t, parent, name)
    ensures forall x :: x in Removed(t, parent, name).dirs <==> x in t.dirs && x != To(t, parent, name)
    ensures t.dirs.Keys !! t.files ==> Removed(t, parent, name).dirs.Keys !! Removed(t, parent, name).files
  {}

  lemma RemovedWalk(t: Tree, parent: nat, name: Name, d: nat, p: seq<Name>)
    requires parent in t.dirs && Removable(t, parent, name) && AllPlain(p)
    requires To(t, parent, name) != parent && d != To(t, parent, name)
    requires Walk(t, d, p) != 0 && Walk(t, d, p) != To(t, parent, name)
    ensures Walk(Removed(t, parent, name), d, p) == Walk(t, d, p)
    decreases |p|
  {
    hide To, Removed;
    if p != [] {
      RemovedTo(t, parent, name, d, p[0]);
      NoWalkFrom(t, To(t, parent, name), p[1..]);
      RemovedWalk(t, parent, name, To(t, d, p[0]), p[1..]);
    }
  }

  /** A file or an empty directory leads nowhere by plain names. */
  lemma NoWalkFrom(t: Tree, x: nat, p: seq<Name>)
    requires Empty(t, x) && AllPlain(p)
    ensures Walk(t, x, p) == if p == [] then x else 0
  {
    if p != [] { assert Plain(p[0]); }
  }

  lemma RemovedLinks(t: Tree, parent: nat, name: Name)
    requires Dotted(t) && Closed(t) && NamedOnce(t) && parent in t.dirs
    requires Removable(t, parent, name) && To(t, parent, name) != parent
    ensures var u := Removed(t, parent, name);
            Dotted(u) && Closed(u) && NamedOnce(u)
  {
    hide To, Removed;
    var u := Removed(t, parent, name);
    var x := To(t, parent, name);
    RemovedLive(t, parent, name);
    forall d, nm ensures To(u, d, nm) == if (d == parent && nm == name) || d == x then 0 else To(t, d, nm) {
      RemovedTo(t, parent, name, d, nm);
    }
    hide Live;
    assert Dotted(u);
    assert Closed(u);
    assert NamedOnce(u);
  }

  /** Removing a file or an empty directory keeps the tree well formed, and takes
      exactly that inode out of it. */
  lemma RemovedWellFormed(t: Tree, parent: nat, name: Name)
    requires WellFormed(t) && parent in t.dirs && Removable(t, parent, name)
    ensures WellFormed(Removed(t, parent, name))
    ensures forall x :: Live(Removed(t, parent, name), x) <==> Live(t, x) && x != To(t, parent, name)
  {
    var u := Removed(t, parent, name);
    NoSelfEntry(t, parent, name);
    RemovedLinks(t, parent, name);
    RemovedLive(t, parent, name);
    assert To(t, parent, name) != ROOT;
    hide Closed, NamedOnce, To, Removed;
    forall y | Live(u, y) ensures Reachable(u, y) {
      assert Reachable(t, y);
      var p :| AllPlain(p) && Walk(t, ROOT, p) == y;
      RemovedWalk(t, parent, name, ROOT, p);
    }
  }
}
