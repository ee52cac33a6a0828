/** Directories as stored in blocks of 64-byte entries, and the finite map from
    names to inode numbers that they represent. */
module LufiraDirs {
  import opened LufiraFormat
  import opened LufiraState
  import opened LufiraContent

  type Dir = map<Name, nat>

  /** Entry slots of a directory; slot `e` is entry `e % 128` of block `e / 128`. */
  function Slots(st: State, d: nat): nat
    requires Shape(st) && IsIno(d)
  {
    DIRENTS * NBlocks(InodeOf(st, d).size)
  }

  function DIno(st: State, d: nat, e: nat): U32
    requires Shape(st) && IsIno(d)
  {
    EntIno(BlockAt(st, d, e / DIRENTS), e % DIRENTS)
  }

  function DName(st: State, d: nat, e: nat): Name
    requires Shape(st) && IsIno(d)
  {
    EntName(BlockAt(st, d, e / DIRENTS), e % DIRENTS)
  }

  /** The live entries of directory `d` are exactly the pairs of `m`, each name once. */
  ghost predicate Represents(st: State, d: nat, m: Dir)
    requires Shape(st) && IsIno(d)
  {
    && NBlocks(InodeOf(st, d).size) <= MAX_BLOCKS
    && (forall e :: 0 <= e < Slots(st, d) && DIno(st, d, e) != 0 ==>
          DName(st, d, e) in m && m[DName(st, d, e)] == DIno(st, d, e))
    && (forall nm :: nm in m ==> NameOk(nm) && Listed(st, d, nm))
    && (forall e, f :: 0 <= e < Slots(st, d) && 0 <= f < Slots(st, d) ==>
          DIno(st, d, e) != 0 && DIno(st, d, f) != 0 && DName(st, d, e) == DName(st, d, f) ==> e == f)
  }

  ghost predicate Listed(st: State, d: nat, nm: Name)
    requires Shape(st) && IsIno(d)
  {
    exists e :: 0 <= e < Slots(st, d) && DIno(st, d, e) != 0 && DName(st, d, e) == nm
  }

  /** No entry slot before `n` in a block of the directory is free. */
  ghost predicate CrowdedTo(st: State, d: nat, n: nat)
    requires Shape(st) && IsIno(d)
  {
    forall e :: 0 <= e < n && e / DIRENTS < MAX_BLOCKS && Ptr(st, d, e / DIRENTS) != 0 ==> DIno(st, d, e) != 0
  }

  ghost predicate Crowded(st: State, d: nat)
    requires Shape(st) && IsIno(d)
  {
    CrowdedTo(st, d, Slots(st, d))
  }

  lemma CrowdedNone(st: State, d: nat)
    requires Shape(st) && IsIno(d)
    ensures CrowdedTo(st, d, 0)
  {}

  lemma CrowdedNext(st: State, d: nat, j: nat, i: nat)
    requires Shape(st) && IsIno(d) && i < DIRENTS && CrowdedTo(st, d, DIRENTS * j + i)
    requires j < MAX_BLOCKS && Ptr(st, d, j) != 0 ==> EntIno(BlockAt(st, d, j), i) != 0
    ensures CrowdedTo(st, d, DIRENTS * j + i + 1)
  {
    hide BlockAt, Ptr;
    assert (DIRENTS * j + i) / DIRENTS == j && (DIRENTS * j + i) % DIRENTS == i;
  }

  /** None of the first `n` slots is a live entry called `name`. */
  ghost predicate Misses(st: State, d: nat, name: Name, n: nat)
    requires Shape(st) && IsIno(d)
  {
    forall x :: 0 <= x < n && DIno(st, d, x) != 0 ==> DName(st, d, x) != name
  }

  lemma MissesNext(st: State, d: nat, name: Name, j: nat, i: nat)
    requires Shape(st) && IsIno(d) && i < DIRENTS && Misses(st, d, name, DIRENTS * j + i)
    requires EntIno(BlockAt(st, d, j), i) == 0 || EntName(BlockAt(st, d, j), i) != name
    ensures Misses(st, d, name, DIRENTS * j + i + 1)
  {
    hide BlockAt, EntName;
    assert (DIRENTS * j + i) / DIRENTS == j && (DIRENTS * j + i) % DIRENTS == i;
  }

  lemma FoundAt(st: State, d: nat, j: nat, i: nat)
    requires Shape(st) && IsIno(d) && i < DIRENTS
    ensures DIno(st, d, DIRENTS * j + i) == EntIno(BlockAt(st, d, j), i)
    ensures DName(st, d, DIRENTS * j + i) == EntName(BlockAt(st, d, j), i)
    ensures (DIRENTS * j + i) / DIRENTS == j && (j < NBlocks(InodeOf(st, d).size) ==> DIRENTS * j + i < Slots(st, d))
  {
    hide BlockAt, EntName;
    assert (DIRENTS * j + i) / DIRENTS == j && (DIRENTS * j + i) % DIRENTS == i;
  }

  /** A directory that has as many blocks as an inode can point to. */
  predicate DirMaxed(st: State, d: nat)
    requires Shape(st) && IsIno(d)
  {
    NBlocks(InodeOf(st, d).size) >= MAX_BLOCKS
  }

  lemma RepresentsFrame(s: State, t: State, d: nat, m: Dir)
    requires Shape(s) && Shape(t) && IsIno(d) && Represents(s, d, m)
    requires InodeOf(t, d).size == InodeOf(s, d).size
    requires forall k :: 0 <= k ==> BlockAt(t, d, k) == BlockAt(s, d, k)
    ensures Represents(t, d, m)
  {
    forall e | 0 <= e ensures DIno(t, d, e) == DIno(s, d, e) && DName(t, d, e) == DName(s, d, e) {}
    forall nm | nm in m ensures Listed(t, d, nm) {
      assert Listed(s, d, nm);
      var e :| 0 <= e < Slots(s, d) && DIno(s, d, e) != 0 && DName(s, d, e) == nm;
      assert DName(t, d, e) == nm;
    }
  }

  /** Slot `e`, free before, now holds (`name`, `ino`); nothing else is new. */
  ghost predicate EntAdded(s: State, t: State, d: nat, e: nat, name: Name, ino: nat)
    requires Shape(s) && Shape(t) && IsIno(d)
  {
    && (NBlocks(InodeOf(s, d).size) <= MAX_BLOCKS ==> NBlocks(InodeOf(t, d).size) <= MAX_BLOCKS)
    && Slots(s, d) <= Slots(t, d) && e < Slots(t, d)
    && (e < Slots(s, d) ==> DIno(s, d, e) == 0)
    && DIno(t, d, e) == ino && DName(t, d, e) == name
    && (forall x :: 0 <= x < Slots(s, d) && x != e ==>
          DIno(t, d, x) == DIno(s, d, x) && DName(t, d, x) == DName(s, d, x))
    && (forall x :: Slots(s, d) <= x < Slots(t, d) && x != e ==> DIno(t, d, x) == 0)
  }

  lemma AddedRepresents(s: State, t: State, d: nat, e: nat, name: Name, ino: nat, m: Dir)
    requires Shape(s) && Shape(t) && IsIno(d) && Represents(s, d, m)
    requires EntAdded(s, t, d, e, name, ino) && NameOk(name) && name !in m && ino != 0
    ensures Represents(t, d, m[name := ino])
  {
    hide DIno, DName, Slots;
    forall nm | nm in m[name := ino] ensures Listed(t, d, nm) {
      if nm == name {
        assert DName(t, d, e) == nm;
      } else {
        assert Listed(s, d, nm);
        var x :| 0 <= x < Slots(s, d) && DIno(s, d, x) != 0 && DName(s, d, x) == nm;
        assert DName(t, d, x) == nm;
      }
    }
    forall x, y | 0 <= x < Slots(t, d) && 0 <= y < Slots(t, d) && DIno(t, d, x) != 0 && DIno(t, d, y) != 0
      && DName(t, d, x) == DName(t, d, y)
      ensures x == y
    {
      if x != e { assert DName(s, d, x) in m; }
      if y != e { assert DName(s, d, y) in m; }
    }
  }

  /** Slot `e` was cleared; nothing else changed. */
  ghost predicate EntRemoved(s: State, t: State, d: nat, e: nat)
    requires Shape(s) && Shape(t) && IsIno(d)
  {
    && InodeOf(t, d).size == InodeOf(s, d).size
    && DIno(t, d, e) == 0
    && (forall x :: 0 <= x < Slots(s, d) && x != e ==>
          DIno(t, d, x) == DIno(s, d, x) && DName(t, d, x) == DName(s, d, x))
  }

  lemma RemovedRepresents(s: State, t: State, d: nat, e: nat, m: Dir)
    requires Shape(s) && Shape(t) && IsIno(d) && Represents(s, d, m)
    requires e < Slots(s, d) && DIno(s, d, e) != 0 && EntRemoved(s, t, d, e)
    ensures Represents(t, d, m - {DName(s, d, e)})
  {
    hide DIno, DName, NameOk;
    var name := DName(s, d, e);
    var n := m - {name};
    forall x | 0 <= x < Slots(t, d) && DIno(t, d, x) != 0
      ensures x != e && DIno(s, d, x) == DIno(t, d, x) && DName(s, d, x) == DName(t, d, x) != name {}
    forall nm | nm in n ensures NameOk(nm) && Listed(t, d, nm) {
      assert Listed(s, d, nm);
      var x :| 0 <= x < Slots(s, d) && DIno(s, d, x) != 0 && DName(s, d, x) == nm;
      assert DName(t, d, x) == nm;
    }
  }

  // ------------------------------------------------ what block writes amount to

  lemma ZeroEnts(i: nat)
    requires i < DIRENTS
    ensures EntIno(ZeroBlock(), i) == 0
  {}

  /** Storing an entry in a block of the directory. */
  lemma PutInBlock(s: State, d: nat, e: nat, name: Name, ino: U32)
    requires Inv(s) && IsIno(d) && e < Slots(s, d) && e / DIRENTS < MAX_BLOCKS
    requires NameOk(name) && DIno(s, d, e) == 0 && Ptr(s, d, e / DIRENTS) != 0
    ensures var j := e / DIRENTS;
            var t := BlockSet(s, d, j, PutEnt(BlockAt(s, d, j), e % DIRENTS, ino, name));
            Inv(t) && OthersSame(s, t, d) && EntAdded(s, t, d, e, name, ino)
  {
    var j, i := e / DIRENTS, e % DIRENTS;
    var b := BlockAt(s, d, j);
    var t := BlockSet(s, d, j, PutEnt(b, i, ino, name));
    SetBlock(s, d, j, PutEnt(b, i, ino, name));
    PutEntDecodes(b, i, ino, name);
    forall x | 0 <= x && x != e ensures DIno(t, d, x) == DIno(s, d, x) && DName(t, d, x) == DName(s, d, x) {
      if x / DIRENTS == j {
        assert x % DIRENTS != i;
      } else {
        assert BlockAt(t, d, x / DIRENTS) == BlockAt(s, d, x / DIRENTS);
      }
    }
  }

  lemma ClearInBlock(s: State, d: nat, e: nat)
    requires Inv(s) && IsIno(d) && e < Slots(s, d) && e / DIRENTS < MAX_BLOCKS
    requires Ptr(s, d, e / DIRENTS) != 0
    ensures var j := e / DIRENTS;
            var t := BlockSet(s, d, j, ClearEnt(BlockAt(s, d, j), e % DIRENTS));
            Inv(t) && OthersSame(s, t, d) && EntRemoved(s, t, d, e)
  {
    var j, i := e / DIRENTS, e % DIRENTS;
    var b := BlockAt(s, d, j);
    var t := BlockSet(s, d, j, ClearEnt(b, i));
    SetBlock(s, d, j, ClearEnt(b, i));
    ClearEntDecodes(b, i);
    forall x | 0 <= x && x != e ensures DIno(t, d, x) == DIno(s, d, x) && DName(t, d, x) == DName(s, d, x) {
      if x / DIRENTS == j {
        assert x % DIRENTS != i;
      } else {
        assert BlockAt(t, d, x / DIRENTS) == BlockAt(s, d, x / DIRENTS);
      }
    }
  }

  /** The first entry of a directory leaves slots of its block free. */
  lemma RoomLeft(s: State, t: State, d: nat, e: nat, name: Name, ino: nat)
    requires Shape(s) && Shape(t) && IsIno(d) && NBlocks(InodeOf(s, d).size) == 0 && EntAdded(s, t, d, e, name, ino)
    requires ino != 0
    requires NBlocks(InodeOf(t, d).size) <= MAX_BLOCKS
    ensures !Crowded(t, d)
  {
    var j := e / DIRENTS;
    var f := if e % DIRENTS == 0 then e + 1 else e - 1;
    assert f / DIRENTS == j && f < Slots(t, d) && f != e;
    ZeroEnts(e % DIRENTS);
    assert Ptr(t, d, j) != 0;
    assert DIno(t, d, f) == 0;
  }

  /** A free slot in a block that the inode itself points to. */
  ghost predicate Spare(st: State, d: nat)
    requires Shape(st) && IsIno(d)
  {
    exists e :: 0 <= e < Slots(st, d) && e / DIRENTS < DIRECT && Ptr(st, d, e / DIRENTS) != 0 && DIno(st, d, e) == 0
  }

  lemma SpareRoom(st: State, d: nat)
    requires Shape(st) && IsIno(d) && Spare(st, d)
    ensures !Crowded(st, d)
  {
    hide DIno, Ptr;
    var e :| 0 <= e < Slots(st, d) && e / DIRENTS < DIRECT && Ptr(st, d, e / DIRENTS) != 0 && DIno(st, d, e) == 0;
  }

  lemma SpareKept(s: State, t: State, ino: nat, d: nat)
    requires Shape(s) && Shape(t) && OthersSame(s, t, ino) && IsIno(d) && d != ino && Spare(s, d)
    ensures Spare(t, d)
  {
    var e :| 0 <= e < Slots(s, d) && e / DIRENTS < DIRECT && Ptr(s, d, e / DIRENTS) != 0 && DIno(s, d, e) == 0;
    assert Ptr(t, d, e / DIRENTS) == Ptr(s, d, e / DIRENTS);
    hide Ptr, BlockAt;
    assert DIno(t, d, e) == 0;
  }

  /** A directory with two entries has room in its first block. */
  lemma DotsSpare(s: State, t: State, u: State, d: nat, e: nat, f: nat, nm: Name, nn: Name, i: nat, j: nat)
    requires Shape(s) && Shape(t) && Shape(u) && IsIno(d) && NBlocks(InodeOf(s, d).size) == 0 && i != 0
    requires NBlocks(InodeOf(t, d).size) <= 1 && NBlocks(InodeOf(u, d).size) <= 2
    requires EntAdded(s, t, d, e, nm, i) && EntAdded(t, u, d, f, nn, j)
    ensures Spare(u, d)
  {
    assert e / DIRENTS == 0 && DIno(u, d, e) == i;
    ZeroEnts(e % DIRENTS);
    assert Ptr(u, d, 0) != 0;
    hide Ptr, BlockAt, DIno, DName;
    var x := if e != 0 && f != 0 then 0 else if e != 1 && f != 1 then 1 else 2;
    assert x / DIRENTS == 0 && DIno(u, d, x) == 0;
  }

  lemma OneMoreBlock(n: nat)
    requires n < MAX_BLOCKS
    ensures 0 <= (n + 1) * BLOCK_SIZE < 0x1_0000_0000 && NBlocks((n + 1) * BLOCK_SIZE) == n + 1
  {}

  /** Growing the directory by one block that holds the entry. */
  lemma GrowWithEnt(s: State, v: State, d: nat, name: Name, ino: U32)
    requires Inv(s) && IsIno(d) && NameOk(name)
    requires var n := NBlocks(InodeOf(s, d).size);
             n < MAX_BLOCKS && Grew(s, v, d, n) && Ptr(v, d, n) != 0
    ensures var n := NBlocks(InodeOf(s, d).size);
            var w := BlockSet(v, d, n, PutEnt(ZeroBlock(), 0, ino, name));
            var t := View(w, d, InodeOf(w, d).(size := (n + 1) * BLOCK_SIZE));
            Inv(t) && OthersSame(s, t, d) && SameOwner(InodeOf(t, d), InodeOf(s, d))
              && EntAdded(s, t, d, DIRENTS * n, name, ino)
  {
    var n := NBlocks(InodeOf(s, d).size);
    var data := PutEnt(ZeroBlock(), 0, ino, name);
    var w := BlockSet(v, d, n, data);
    var t := View(w, d, InodeOf(w, d).(size := (n + 1) * BLOCK_SIZE));
    SetBlock(v, d, n, data);
    Resized(w, d, (n + 1) * BLOCK_SIZE);
    PutEntDecodes(ZeroBlock(), 0, ino, name);
    assert NBlocks((n + 1) * BLOCK_SIZE) == n + 1;
    GrowBlocks(s, v, w, t, d, n);
    forall x | 0 <= x < DIRENTS * n ensures DIno(t, d, x) == DIno(s, d, x) && DName(t, d, x) == DName(s, d, x) {
      assert x / DIRENTS < n;
    }
    forall x | DIRENTS * n < x < DIRENTS * n + DIRENTS ensures DIno(t, d, x) == 0 {
      assert x / DIRENTS == n && x % DIRENTS != 0;
      ZeroEnts(x % DIRENTS);
    }
  }

  lemma GrowBlocks(s: State, v: State, w: State, t: State, d: nat, n: nat)
    requires Shape(s) && IsIno(d) && Grew(s, v, d, n) && Shape(w) && Shape(t)
    requires forall i, m :: IsIno(i) && 0 <= m && !(i == d && m == n) ==> BlockAt(w, i, m) == BlockAt(v, i, m)
    requires SameBlocks(w, t)
    ensures forall i, m :: IsIno(i) && 0 <= m && !(i == d && m == n) ==> BlockAt(t, i, m) == BlockAt(s, i, m)
    ensures BlockAt(t, d, n) == BlockAt(w, d, n)
  {
    forall i, m | IsIno(i) && 0 <= m && !(i == d && m == n) ensures BlockAt(t, i, m) == BlockAt(s, i, m) {
      assert BlockAt(t, i, m) == BlockAt(w, i, m) == BlockAt(v, i, m) == BlockAt(s, i, m);
    }
  }
}
