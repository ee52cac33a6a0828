/** The free-inode counter of the superblock: the number of free records, as long as no entry
    leads to a free one. */
module LufiraCount {
  import opened LufiraFormat
  import opened LufiraState
  import opened LufiraDirs
  import opened LufiraTree
  import opened LufiraNamespace
  import opened LufiraVolume

  predicate IsFree(n: Inode) { n.mode == MODE_FREE }

  function FreeCount(ns: seq<Inode>): nat {
    if ns == [] then 0 else FreeCount(ns[..|ns| - 1]) + if IsFree(ns[|ns| - 1]) then 1 else 0
  }

  lemma {:induction false} FreeCountAll(ns: seq<Inode>)
    ensures FreeCount(ns) <= |ns|
    ensures (forall k :: 0 <= k < |ns| ==> IsFree(ns[k])) ==> FreeCount(ns) == |ns|
  {
    if ns != [] { FreeCountAll(ns[..|ns| - 1]); }
  }

  lemma {:induction false} FreeCountSame(ns: seq<Inode>, ms: seq<Inode>)
    requires |ns| == |ms| && forall k :: 0 <= k < |ns| ==> IsFree(ns[k]) == IsFree(ms[k])
    ensures FreeCount(ns) == FreeCount(ms)
  {
    if ns != [] { FreeCountSame(ns[..|ns| - 1], ms[..|ns| - 1]); }
  }

  /** One record less is free. */
  lemma {:induction false} FreeCountLess(ns: seq<Inode>, ms: seq<Inode>, k: nat)
    requires |ns| == |ms| && k < |ns| && IsFree(ns[k]) && !IsFree(ms[k])
    requires forall j :: 0 <= j < |ns| && j != k ==> IsFree(ns[j]) == IsFree(ms[j])
    ensures FreeCount(ns) == FreeCount(ms) + 1
  {
    var n := |ns| - 1;
    if k == n { FreeCountSame(ns[..n], ms[..n]); } else { FreeCountLess(ns[..n], ms[..n], k); }
  }

  lemma {:induction false} FreeCountSome(ns: seq<Inode>, k: nat)
    requires k < |ns| && IsFree(ns[k])
    ensures FreeCount(ns) > 0
  {
    if k < |ns| - 1 { FreeCountSome(ns[..|ns| - 1], k); }
  }

  ghost predicate InodesCounted(fs: LufiraFs)
    reads fs
  {
    fs.sb.freeInodes == FreeCount(fs.inodes)
  }

  /** In a depicted state the free records are those that no name leads to. */
  lemma FreeIffNotLive(s: State, t: Tree, i: nat)
    requires Depicts(s, t) && IsIno(i)
    ensures IsFree(s.inodes[i - 1]) <==> !Live(t, i)
  {
    hide WellFormed, Represents;
    assert ModeSays(InodeOf(s, i).mode, i, t);
  }

  lemma DepictsShape(s: State, t: Tree)
    requires Depicts(s, t)
    ensures Shape(s)
  {}

  lemma SameTree(s: State, u: State, t: Tree)
    requires Depicts(s, t) && Depicts(u, t)
    ensures FreeCount(u.inodes) == FreeCount(s.inodes)
  {
    hide Depicts, Live, FreeCount;
    DepictsShape(s, t);
    DepictsShape(u, t);
    forall k | 0 <= k < |s.inodes| ensures IsFree(s.inodes[k]) == IsFree(u.inodes[k]) {
      FreeIffNotLive(s, t, k + 1);
      FreeIffNotLive(u, t, k + 1);
    }
    FreeCountSame(s.inodes, u.inodes);
  }

  /** One more live inode, one record less that is free. */
  lemma OneMore(s: State, u: State, t: Tree, t': Tree, x: nat)
    requires Depicts(s, t) && Depicts(u, t') && IsIno(x) && !Live(t, x)
    requires forall i :: Live(t', i) <==> Live(t, i) || i == x
    ensures FreeCount(s.inodes) == FreeCount(u.inodes) + 1
  {
    hide Depicts, Live, FreeCount;
    DepictsShape(s, t);
    DepictsShape(u, t');
    forall k | 0 <= k < |s.inodes|
      ensures IsFree(s.inodes[k]) == (IsFree(u.inodes[k]) || k == x - 1) && (k == x - 1 ==> !IsFree(u.inodes[k]))
    {
      FreeIffNotLive(s, t, k + 1);
      FreeIffNotLive(u, t', k + 1);
    }
    FreeCountLess(s.inodes, u.inodes, x - 1);
  }

  /** Freeing a record counts right exactly when it was in use. */
  lemma FreedCount(ns: seq<Inode>, k: nat, n: U32)
    requires k < |ns| == INODE_COUNT && n == FreeCount(ns)
    ensures More(n) == FreeCount(ns[k := FreeInode()]) <==> !IsFree(ns[k])
  {
    var ms := ns[k := FreeInode()];
    FreeCountAll(ns);
    if IsFree(ns[k]) { FreeCountSame(ns, ms); } else { FreeCountLess(ms, ns, k); }
  }
}
