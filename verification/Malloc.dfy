/** libc malloc: arenas of 64 KiB whose blocks form a doubly linked list in address
    order, split on allocation and coalesced on free; requests that do not fit an
    arena get a mapping of their own. Memory is a map from header addresses to
    headers; an address of 0 is NULL. */
module Malloc {

  const ARENA: nat := 65536
  const MAX_ARENAS: nat := 32
  const PAGE: nat := 4096
  const HEADER: nat := 24
  const SPLIT_THRESHOLD: nat := 64

  datatype Magic = NONE | FREE | USED | LARGE

  datatype Header = Header(magic: Magic, size: nat, next: nat, prev: nat)

  type Memory = map<nat, Header>

  function At(mem: Memory, b: nat): Header { if b in mem then mem[b] else Header(NONE, 0, 0, 0) }

  // ---------------------------------------------------------------- one arena

  function NextOf(bs: seq<nat>, i: nat): nat
    requires i < |bs|
  {
    if i + 1 < |bs| then bs[i + 1] else 0
  }

  function PrevOf(bs: seq<nat>, i: nat): nat
    requires i < |bs|
  {
    if i > 0 then bs[i - 1] else 0
  }

  function EndOf(base: nat, bs: seq<nat>, i: nat): nat
    requires i < |bs|
  {
    if i + 1 < |bs| then bs[i + 1] else base + ARENA
  }

  /** The headers at `bs` are linked in this order and tile the arena at `base`
      exactly, in multiples of 16. */
  ghost predicate Tiles(mem: Memory, base: nat, bs: seq<nat>) {
    && |bs| > 0 && bs[0] == base && base > 0 && base % 16 == 0
    && forall i :: 0 <= i < |bs| ==> TileOk(mem, base, bs, i)
  }

  ghost predicate TileOk(mem: Memory, base: nat, bs: seq<nat>, i: nat)
    requires i < |bs|
  {
    var h := At(mem, bs[i]);
    && (h.magic == FREE || h.magic == USED) && h.size > HEADER && h.size % 16 == 0
    && bs[i] + h.size == EndOf(base, bs, i)
    && h.next == NextOf(bs, i) && h.prev == PrevOf(bs, i)
  }

  predicate Free(mem: Memory, b: nat) { At(mem, b).magic == FREE }

  /** No two neighbouring blocks are both free. */
  ghost predicate Coalesced(mem: Memory, bs: seq<nat>) {
    forall i :: 0 <= i < |bs| - 1 ==> !(Free(mem, bs[i]) && Free(mem, bs[i + 1]))
  }

  lemma {:induction false} Ascending(mem: Memory, base: nat, bs: seq<nat>, i: nat, j: nat)
    requires Tiles(mem, base, bs) && i < j < |bs|
    ensures bs[i] + At(mem, bs[i]).size <= bs[j]
    decreases j - i
  {
    assert TileOk(mem, base, bs, i) && TileOk(mem, base, bs, j - 1);
    if i < j - 1 { Ascending(mem, base, bs, i, j - 1); }
  }

  lemma {:induction false} InArena(mem: Memory, base: nat, bs: seq<nat>, i: nat)
    requires Tiles(mem, base, bs) && i < |bs|
    ensures base <= bs[i] && bs[i] + At(mem, bs[i]).size <= base + ARENA && bs[i] % 16 == 0
    decreases |bs| - i
  {
    assert TileOk(mem, base, bs, i);
    AlignedAt(mem, base, bs, i);
    if i > 0 { Ascending(mem, base, bs, 0, i); }
    if i + 1 < |bs| { InArena(mem, base, bs, i + 1); assert TileOk(mem, base, bs, i + 1); }
  }

  lemma {:induction false} AlignedAt(mem: Memory, base: nat, bs: seq<nat>, i: nat)
    requires Tiles(mem, base, bs) && i < |bs|
    ensures bs[i] % 16 == 0
    decreases i
  {
    if i > 0 {
      AlignedAt(mem, base, bs, i - 1);
      assert TileOk(mem, base, bs, i - 1);
    }
  }

  lemma Distinct(mem: Memory, base: nat, bs: seq<nat>)
    requires Tiles(mem, base, bs)
    ensures forall i, j :: 0 <= i < |bs| && 0 <= j < |bs| && bs[i] == bs[j] ==> i == j
  {
    forall i, j | 0 <= i < j < |bs| ensures bs[i] != bs[j] {
      Ascending(mem, base, bs, i, j);
      assert TileOk(mem, base, bs, i);
    }
  }

  /** Changes elsewhere in memory do not matter to an arena. */
  lemma TilesFrame(mem: Memory, mem2: Memory, base: nat, bs: seq<nat>)
    requires Tiles(mem, base, bs)
    requires forall i :: 0 <= i < |bs| ==> At(mem2, bs[i]) == At(mem, bs[i])
    ensures Tiles(mem2, base, bs) && (Coalesced(mem, bs) ==> Coalesced(mem2, bs))
  {
    hide At;
    forall i | 0 <= i < |bs| ensures TileOk(mem2, base, bs, i) { assert TileOk(mem, base, bs, i); }
  }

  // -------------------------------------------------------- split, mark, merge

  /** `split_block` with the tail really cut off. */
  function SplitMem(mem: Memory, b: nat, need: nat): Memory
    requires need <= At(mem, b).size
  {
    var h, tail := At(mem, b), b + need;
    var m1 := mem[tail := Header(FREE, h.size - need, h.next, b)];
    var m2 := if h.next != 0 then m1[h.next := At(m1, h.next).(prev := tail)] else m1;
    m2[b := Header(h.magic, need, tail, h.prev)]
  }

  lemma SplitMemAt(mem: Memory, b: nat, need: nat, x: nat)
    requires 0 < need <= At(mem, b).size && At(mem, b).next != b + need
    ensures At(SplitMem(mem, b, need), x) == SplitAt(mem, b, need, x)
  {}

  function SplitList(bs: seq<nat>, i: nat, need: nat): seq<nat>
    requires i < |bs|
  {
    bs[..i + 1] + [bs[i] + need] + bs[i + 1..]
  }

  lemma SplitTiles(mem: Memory, base: nat, bs: seq<nat>, i: nat, need: nat)
    requires Tiles(mem, base, bs) && i < |bs| && HEADER < need && need % 16 == 0
    requires need + HEADER < At(mem, bs[i]).size
    ensures Tiles(SplitMem(mem, bs[i], need), base, SplitList(bs, i, need))
    ensures forall k :: 0 <= k < |bs| && k != i ==>
              At(SplitMem(mem, bs[i], need), bs[k]).magic == At(mem, bs[k]).magic &&
              At(SplitMem(mem, bs[i], need), bs[k]).size == At(mem, bs[k]).size
  {
    hide At, SplitMem;
    var b, h, tail := bs[i], At(mem, bs[i]), bs[i] + need;
    assert TileOk(mem, base, bs, i);
    var m, l := SplitMem(mem, b, need), SplitList(bs, i, need);
    forall k | 0 <= k < |bs| ensures (k < i ==> bs[k] < b) && (k > i ==> bs[k] > tail) && bs[k] != 0 && h.next != tail {
      assert TileOk(mem, base, bs, k);
      if k < i { Ascending(mem, base, bs, k, i); }
      if k > i { Ascending(mem, base, bs, i, k); }
      InArena(mem, base, bs, k);
    }
    Distinct(mem, base, bs);
    forall x ensures At(m, x) == SplitAt(mem, b, need, x) { SplitMemAt(mem, b, need, x); }
    forall k | 0 <= k < |l| ensures TileOk(m, base, l, k) { SplitTile(mem, m, base, bs, i, need, k); }
  }

  ghost function SplitAt(mem: Memory, b: nat, need: nat, x: nat): Header
    requires need <= At(mem, b).size
  {
    var h := At(mem, b);
    if x == b then Header(h.magic, need, b + need, h.prev)
    else if x == b + need then Header(FREE, h.size - need, h.next, b)
    else if x == h.next && x != 0 then At(mem, x).(prev := b + need)
    else At(mem, x)
  }

  lemma SplitTile(mem: Memory, m: Memory, base: nat, bs: seq<nat>, i: nat, need: nat, k: nat)
    requires Tiles(mem, base, bs) && i < |bs| && HEADER < need && need % 16 == 0 && need + HEADER < At(mem, bs[i]).size
    requires forall a, b :: 0 <= a < |bs| && 0 <= b < |bs| && bs[a] == bs[b] ==> a == b
    requires forall a :: 0 <= a < |bs| ==> bs[a] != 0 && bs[a] != bs[i] + need
    requires k <= |bs| && forall x :: At(m, x) == SplitAt(mem, bs[i], need, x)
    ensures TileOk(m, base, SplitList(bs, i, need), k)
  {
    hide At, SplitAt, TileOk, Tiles;
    if k < i { SplitTileBefore(mem, m, base, bs, i, need, k); }
    else if k <= i + 1 { SplitTileHere(mem, m, base, bs, i, need, k); }
    else { SplitTileAfter(mem, m, base, bs, i, need, k); }
  }

  lemma SplitTileBefore(mem: Memory, m: Memory, base: nat, bs: seq<nat>, i: nat, need: nat, k: nat)
    requires Tiles(mem, base, bs) && i < |bs| && HEADER < need && need % 16 == 0 && need + HEADER < At(mem, bs[i]).size
    requires forall a, b :: 0 <= a < |bs| && 0 <= b < |bs| && bs[a] == bs[b] ==> a == b
    requires forall a :: 0 <= a < |bs| ==> bs[a] != 0 && bs[a] != bs[i] + need
    requires k < i && At(m, bs[k]) == SplitAt(mem, bs[i], need, bs[k])
    ensures TileOk(m, base, SplitList(bs, i, need), k)
  {
    hide At;
    var l := SplitList(bs, i, need);
    assert l[..i + 1] == bs[..i + 1];
    assert l[k] == bs[k] && l[k + 1] == bs[k + 1] && (k > 0 ==> l[k - 1] == bs[k - 1]);
    assert TileOk(mem, base, bs, k) && TileOk(mem, base, bs, i);
  }

  lemma SplitTileHere(mem: Memory, m: Memory, base: nat, bs: seq<nat>, i: nat, need: nat, k: nat)
    requires Tiles(mem, base, bs) && i < |bs| && HEADER < need && need % 16 == 0 && need + HEADER < At(mem, bs[i]).size
    requires forall a, b :: 0 <= a < |bs| && 0 <= b < |bs| && bs[a] == bs[b] ==> a == b
    requires forall a :: 0 <= a < |bs| ==> bs[a] != 0 && bs[a] != bs[i] + need
    requires i <= k <= i + 1
    requires At(m, bs[i]) == SplitAt(mem, bs[i], need, bs[i])
    requires At(m, bs[i] + need) == SplitAt(mem, bs[i], need, bs[i] + need)
    ensures TileOk(m, base, SplitList(bs, i, need), k)
  {
    hide At;
    var l := SplitList(bs, i, need);
    assert l[i] == bs[i] && l[i + 1] == bs[i] + need && (i > 0 ==> l[i - 1] == bs[i - 1])
           && (i + 1 < |bs| ==> l[i + 2] == bs[i + 1]);
    assert TileOk(mem, base, bs, i);
  }

  lemma SplitTileAfter(mem: Memory, m: Memory, base: nat, bs: seq<nat>, i: nat, need: nat, k: nat)
    requires Tiles(mem, base, bs) && i < |bs| && HEADER < need && need % 16 == 0 && need + HEADER < At(mem, bs[i]).size
    requires forall a, b :: 0 <= a < |bs| && 0 <= b < |bs| && bs[a] == bs[b] ==> a == b
    requires forall a :: 0 <= a < |bs| ==> bs[a] != 0 && bs[a] != bs[i] + need
    requires i + 1 < k <= |bs| && At(m, bs[k - 1]) == SplitAt(mem, bs[i], need, bs[k - 1])
    ensures TileOk(m, base, SplitList(bs, i, need), k)
  {
    hide At;
    var l := SplitList(bs, i, need);
    assert l[k] == bs[k - 1] && (k < |bs| ==> l[k + 1] == bs[k])
           && l[k - 1] == (if k == i + 2 then bs[i] + need else bs[k - 2]);
    assert TileOk(mem, base, bs, k - 1) && TileOk(mem, base, bs, i);
  }

  lemma MarkTiles(mem: Memory, base: nat, bs: seq<nat>, i: nat, magic: Magic)
    requires Tiles(mem, base, bs) && i < |bs| && (magic == FREE || magic == USED)
    ensures Tiles(mem[bs[i] := At(mem, bs[i]).(magic := magic)], base, bs)
  {
    var m := mem[bs[i] := At(mem, bs[i]).(magic := magic)];
    forall k | 0 <= k < |bs| ensures TileOk(m, base, bs, k) { assert TileOk(mem, base, bs, k); }
  }

  /** `merge_with_next` when the next block is free. */
  function MergeMem(mem: Memory, b: nat): Memory {
    var n := At(mem, b).next;
    var h := At(mem, n);
    var m1 := mem[b := Header(At(mem, b).magic, At(mem, b).size + h.size, h.next, At(mem, b).prev)];
    if h.next != 0 then m1[h.next := At(m1, h.next).(prev := b)] else m1
  }

  lemma MergeMemAt(mem: Memory, b: nat, x: nat)
    requires At(mem, At(mem, b).next).next != b
    ensures At(MergeMem(mem, b), x) ==
            var h, n := At(mem, b), At(mem, At(mem, b).next);
            if x == b then Header(h.magic, h.size + n.size, n.next, h.prev)
            else if x == n.next && x != 0 then At(mem, x).(prev := b)
            else At(mem, x)
  {}

  function MergeList(bs: seq<nat>, i: nat): seq<nat>
    requires i + 1 < |bs|
  {
    bs[..i + 1] + bs[i + 2..]
  }

  lemma MergeTiles(mem: Memory, base: nat, bs: seq<nat>, i: nat)
    requires Tiles(mem, base, bs) && i + 1 < |bs|
    ensures Tiles(MergeMem(mem, bs[i]), base, MergeList(bs, i))
    ensures forall k :: 0 <= k < |bs| ==> At(MergeMem(mem, bs[i]), bs[k]).magic == At(mem, bs[k]).magic
    ensures forall k :: 0 <= k < |bs| && k != i ==> At(MergeMem(mem, bs[i]), bs[k]).size == At(mem, bs[k]).size
  {
    hide At, MergeMem;
    assert TileOk(mem, base, bs, i) && TileOk(mem, base, bs, i + 1);
    Distinct(mem, base, bs);
    forall k | 0 <= k < |bs| ensures bs[k] != 0 { InArena(mem, base, bs, k); }
    var m, l := MergeMem(mem, bs[i]), MergeList(bs, i);
    var h, n := At(mem, bs[i]), At(mem, bs[i + 1]);
    forall x ensures At(m, x) == MergedAt(mem, bs, i, x) { MergeMemAt(mem, bs[i], x); }
    forall k | 0 <= k < |l| ensures TileOk(m, base, l, k) { MergeTile(mem, m, base, bs, i, k); }
  }

  ghost function MergedAt(mem: Memory, bs: seq<nat>, i: nat, x: nat): Header
    requires i + 1 < |bs|
  {
    var h, n := At(mem, bs[i]), At(mem, bs[i + 1]);
    if x == bs[i] then Header(h.magic, h.size + n.size, n.next, h.prev)
    else if x == n.next && x != 0 then At(mem, x).(prev := bs[i])
    else At(mem, x)
  }

  lemma MergeTile(mem: Memory, m: Memory, base: nat, bs: seq<nat>, i: nat, k: nat)
    requires Tiles(mem, base, bs) && i + 1 < |bs| && k < |bs| - 1
    requires forall a, b :: 0 <= a < |bs| && 0 <= b < |bs| && bs[a] == bs[b] ==> a == b
    requires forall a :: 0 <= a < |bs| ==> bs[a] != 0
    requires forall x :: At(m, x) == MergedAt(mem, bs, i, x)
    ensures TileOk(m, base, MergeList(bs, i), k)
  {
    if k <= i { MergeBefore(mem, m, base, bs, i, k); } else { MergeAfter(mem, m, base, bs, i, k); }
  }

  lemma MergeBefore(mem: Memory, m: Memory, base: nat, bs: seq<nat>, i: nat, k: nat)
    requires Tiles(mem, base, bs) && i + 1 < |bs| && k <= i
    requires forall a, b :: 0 <= a < |bs| && 0 <= b < |bs| && bs[a] == bs[b] ==> a == b
    requires forall a :: 0 <= a < |bs| ==> bs[a] != 0
    requires forall x :: At(m, x) == MergedAt(mem, bs, i, x)
    ensures TileOk(m, base, MergeList(bs, i), k)
  {
    hide At;
    var l := MergeList(bs, i);
    assert TileOk(mem, base, bs, i) && TileOk(mem, base, bs, i + 1);
    assert l[k] == bs[k] && TileOk(mem, base, bs, k);
    assert At(m, bs[k]) == MergedAt(mem, bs, i, bs[k]);
  }

  lemma MergeAfter(mem: Memory, m: Memory, base: nat, bs: seq<nat>, i: nat, k: nat)
    requires Tiles(mem, base, bs) && i < k < |bs| - 1
    requires forall a, b :: 0 <= a < |bs| && 0 <= b < |bs| && bs[a] == bs[b] ==> a == b
    requires forall a :: 0 <= a < |bs| ==> bs[a] != 0
    requires forall x :: At(m, x) == MergedAt(mem, bs, i, x)
    ensures TileOk(m, base, MergeList(bs, i), k)
  {
    hide At;
    var l := MergeList(bs, i);
    assert TileOk(mem, base, bs, i) && TileOk(mem, base, bs, i + 1);
    assert l[k] == bs[k + 1] && TileOk(mem, base, bs, k + 1);
    assert At(m, bs[k + 1]) == MergedAt(mem, bs, i, bs[k + 1]);
  }

  lemma TwoFree(mem: Memory, bs: seq<nat>)
    requires |bs| > 1 && Coalesced(mem, bs)
    ensures !Free(mem, bs[0]) || !Free(mem, bs[1])
  {
    assert bs[0 + 1] == bs[1];
  }

  /** An arena whose blocks are all free is one free block of 64 KiB. */
  lemma AllFreeIsWhole(mem: Memory, base: nat, bs: seq<nat>)
    requires Tiles(mem, base, bs) && Coalesced(mem, bs)
    requires forall i :: 0 <= i < |bs| ==> Free(mem, bs[i])
    ensures bs == [base] && At(mem, base) == Header(FREE, ARENA, 0, 0)
  {
    assert TileOk(mem, base, bs, 0);
    if |bs| > 1 { TwoFree(mem, bs); }
  }

  // ---------------------------------------------------------------- the heap

  /** Memory, the arena table, the blocks of each arena in list order, and the
      headers of the separately mapped blocks. */
  datatype Heap = Heap(mem: Memory, arenas: seq<nat>, lists: seq<seq<nat>>, large: set<nat>)

  predicate Apart(x: nat, n: nat, y: nat, m: nat) { x + n <= y || y + m <= x }

  ghost predicate LargeOk(mem: Memory, b: nat) {
    var h := At(mem, b);
    b > 0 && b % 16 == 0 && h.magic == LARGE && h.size > HEADER
  }

  ghost predicate Ok(h: Heap) {
    && |h.arenas| == |h.lists| <= MAX_ARENAS
    && (forall a :: 0 <= a < |h.lists| ==> Tiles(h.mem, h.arenas[a], h.lists[a]) && Coalesced(h.mem, h.lists[a]))
    && (forall a, b :: 0 <= a < b < |h.arenas| ==> Apart(h.arenas[a], ARENA, h.arenas[b], ARENA))
    && (forall l :: l in h.large ==> LargeOk(h.mem, l))
    && (forall l, a :: l in h.large && 0 <= a < |h.arenas| ==> Apart(l, At(h.mem, l).size, h.arenas[a], ARENA))
    && (forall l, k :: l in h.large && k in h.large && l != k ==> Apart(l, At(h.mem, l).size, k, At(h.mem, k).size))
  }

  ghost predicate InLists(h: Heap, b: nat) { exists a :: 0 <= a < |h.lists| && b in h.lists[a] }

  /** `b` is the header of a block that was handed out and not yet freed. */
  ghost predicate Live(h: Heap, b: nat) {
    b in h.large || (InLists(h, b) && At(h.mem, b).magic == USED)
  }

  /** A header at `b` with a magic number of a block in use is that of such a block. A block
      freed before, merged into its neighbour or not, shows another number. */
  ghost predicate Genuine(h: Heap, b: nat) {
    At(h.mem, b).magic == USED || At(h.mem, b).magic == LARGE ==> Live(h, b)
  }

  /** The payloads of two live blocks never overlap. */
  lemma LiveApart(h: Heap, x: nat, y: nat)
    requires Ok(h) && Live(h, x) && Live(h, y) && x != y
    ensures Apart(x, At(h.mem, x).size, y, At(h.mem, y).size)
  {
    if x !in h.large {
      var a :| 0 <= a < |h.lists| && x in h.lists[a];
      var i :| 0 <= i < |h.lists[a]| && h.lists[a][i] == x;
      InArena(h.mem, h.arenas[a], h.lists[a], i);
      if y !in h.large {
        var b :| 0 <= b < |h.lists| && y in h.lists[b];
        var j :| 0 <= j < |h.lists[b]| && h.lists[b][j] == y;
        InArena(h.mem, h.arenas[b], h.lists[b], j);
        if a == b {
          if i < j {
            Ascending(h.mem, h.arenas[a], h.lists[a], i, j);
          } else {
            Ascending(h.mem, h.arenas[a], h.lists[a], j, i);
          }
        } else {
          ApartArenas(h, a, b);
        }
      }
    } else if y !in h.large {
      var b :| 0 <= b < |h.lists| && y in h.lists[b];
      var j :| 0 <= j < |h.lists[b]| && h.lists[b][j] == y;
      InArena(h.mem, h.arenas[b], h.lists[b], j);
    }
  }

  lemma ApartArenas(h: Heap, a: nat, b: nat)
    requires Ok(h) && a < |h.arenas| && b < |h.arenas| && a != b
    ensures Apart(h.arenas[a], ARENA, h.arenas[b], ARENA)
  {
    if a < b {} else { assert Apart(h.arenas[b], ARENA, h.arenas[a], ARENA); }
  }

  /** Freeing every block of an arena leaves it as one free block. */
  lemma NoneLiveIsWhole(h: Heap, a: nat)
    requires Ok(h) && a < |h.arenas|
    requires forall b :: b in h.lists[a] ==> !Live(h, b)
    ensures h.lists[a] == [h.arenas[a]] && At(h.mem, h.arenas[a]) == Header(FREE, ARENA, 0, 0)
  {
    forall i | 0 <= i < |h.lists[a]| ensures Free(h.mem, h.lists[a][i]) {
      assert h.lists[a][i] in h.lists[a];
      assert TileOk(h.mem, h.arenas[a], h.lists[a], i);
      assert InLists(h, h.lists[a][i]);
    }
    AllFreeIsWhole(h.mem, h.arenas[a], h.lists[a]);
  }

  /** Every payload starts 8 bytes past a multiple of 16. */
  lemma PayloadAlignment(h: Heap, x: nat)
    requires Ok(h) && Live(h, x)
    ensures (x + HEADER) % 16 == 8
  {
    assert x % 16 == 0 by {
      if x in h.large {
        assert LargeOk(h.mem, x);
      } else {
        var a :| 0 <= a < |h.lists| && x in h.lists[a];
        var i :| 0 <= i < |h.lists[a]| && h.lists[a][i] == x;
        InArena(h.mem, h.arenas[a], h.lists[a], i);
      }
    }
    hide Ok, Live;
  }

  // ------------------------------------------------- steps inside one arena

  /** A change of memory inside arena `a` only. */
  ghost predicate Local(mem: Memory, m: Memory, base: nat) {
    forall x: nat :: !(base <= x < base + ARENA) ==> At(m, x) == At(mem, x)
  }

  lemma LocalOk(h: Heap, m: Memory, a: nat, bs: seq<nat>)
    requires Ok(h) && a < |h.arenas| && Local(h.mem, m, h.arenas[a])
    requires Tiles(m, h.arenas[a], bs) && Coalesced(m, bs)
    ensures Ok(Heap(m, h.arenas, h.lists[a := bs], h.large))
    ensures forall b :: 0 <= b < |h.arenas| && b != a ==> forall x :: x in h.lists[b] ==> At(m, x) == At(h.mem, x)
    ensures forall l :: l in h.large ==> At(m, l) == At(h.mem, l)
  {
    hide At, Coalesced, Tiles;
    forall b | 0 <= b < |h.arenas| && b != a
      ensures Tiles(m, h.arenas[b], h.lists[b]) && Coalesced(m, h.lists[b])
      ensures forall x :: x in h.lists[b] ==> At(m, x) == At(h.mem, x)
    {
      ApartArenas(h, a, b);
      forall i | 0 <= i < |h.lists[b]| ensures At(m, h.lists[b][i]) == At(h.mem, h.lists[b][i]) {
        InArena(h.mem, h.arenas[b], h.lists[b], i);
        InArenaStart(h.mem, h.arenas[b], h.lists[b], i);
      }
      TilesFrame(h.mem, m, h.arenas[b], h.lists[b]);
    }
  }

  lemma InArenaStart(mem: Memory, base: nat, bs: seq<nat>, i: nat)
    requires Tiles(mem, base, bs) && i < |bs|
    ensures base <= bs[i] < base + ARENA
  {
    InArena(mem, base, bs, i);
    assert TileOk(mem, base, bs, i);
  }

  /** What the live blocks become when one arena changes. */
  lemma LiveAfter(h: Heap, m: Memory, a: nat, bs: seq<nat>, x: nat)
    requires Ok(h) && a < |h.arenas| && Local(h.mem, m, h.arenas[a]) && Tiles(m, h.arenas[a], bs) && Coalesced(m, bs)
    ensures x !in h.lists[a] && x !in bs ==>
              (Live(Heap(m, h.arenas, h.lists[a := bs], h.large), x) <==> Live(h, x))
                && (Live(h, x) ==> At(m, x) == At(h.mem, x))
    ensures x in bs ==> (Live(Heap(m, h.arenas, h.lists[a := bs], h.large), x) <==> At(m, x).magic == USED)
    ensures x in h.lists[a] ==> (Live(h, x) <==> At(h.mem, x).magic == USED)
    ensures x in h.lists[a] && x !in bs ==> !Live(Heap(m, h.arenas, h.lists[a := bs], h.large), x)
  {
    LocalOk(h, m, a, bs);
    var g := Heap(m, h.arenas, h.lists[a := bs], h.large);
    if x in bs { assert g.lists[a] == bs; assert InLists(g, x); NotLarge(g, a, x); }
    if x in h.lists[a] { assert InLists(h, x); NotLarge(h, a, x); if x !in bs { OnlyHere(h, g, a, x); } }
    if x !in h.lists[a] && x !in bs {
      if InLists(h, x) { var b :| 0 <= b < |h.lists| && x in h.lists[b]; assert g.lists[b] == h.lists[b]; }
      if InLists(g, x) { var b :| 0 <= b < |g.lists| && x in g.lists[b]; assert g.lists[b] == h.lists[b]; }
    }
  }

  lemma NotLarge(h: Heap, a: nat, x: nat)
    requires Ok(h) && a < |h.lists| && x in h.lists[a]
    ensures x !in h.large
  {
    var i :| 0 <= i < |h.lists[a]| && h.lists[a][i] == x;
    assert TileOk(h.mem, h.arenas[a], h.lists[a], i);
  }

  lemma OnlyHere(h: Heap, g: Heap, a: nat, x: nat)
    requires Ok(h) && Ok(g) && a < |h.lists| && x in h.lists[a] && g.arenas == h.arenas && x !in g.lists[a]
    ensures !InLists(g, x)
  {
    var i :| 0 <= i < |h.lists[a]| && h.lists[a][i] == x;
    InArenaStart(h.mem, h.arenas[a], h.lists[a], i);
    forall b | 0 <= b < |g.lists| ensures x !in g.lists[b] {
      if x in g.lists[b] {
        var j :| 0 <= j < |g.lists[b]| && g.lists[b][j] == x;
        InArenaStart(g.mem, g.arenas[b], g.lists[b], j);
        ApartArenas(g, a, b);
      }
    }
  }

  predicate Splits(mem: Memory, b: nat, need: nat) { At(mem, b).size >= need + HEADER + SPLIT_THRESHOLD }

  /** `split_block` and the used mark. */
  function AllocMem(mem: Memory, b: nat, need: nat): Memory {
    var m := if Splits(mem, b, need) then SplitMem(mem, b, need) else mem;
    m[b := At(m, b).(magic := USED)]
  }

  function AllocList(mem: Memory, bs: seq<nat>, i: nat, need: nat): seq<nat>
    requires i < |bs|
  {
    if Splits(mem, bs[i], need) then SplitList(bs, i, need) else bs
  }

  lemma AllocArena(mem: Memory, base: nat, bs: seq<nat>, i: nat, need: nat)
    requires Tiles(mem, base, bs) && Coalesced(mem, bs) && i < |bs| && Free(mem, bs[i])
    requires HEADER < need <= At(mem, bs[i]).size && need % 16 == 0
    ensures var m, l := AllocMem(mem, bs[i], need), AllocList(mem, bs, i, need);
            && Tiles(m, base, l) && Coalesced(m, l) && Local(mem, m, base)
            && bs[i] in l && At(m, bs[i]).magic == USED && At(m, bs[i]).size >= need
            && (forall k :: 0 <= k < |bs| && k != i ==>
                  bs[k] in l && At(m, bs[k]).magic == At(mem, bs[k]).magic && At(m, bs[k]).size == At(mem, bs[k]).size)
            && (forall x :: x in l && x !in bs ==> At(m, x).magic == FREE)
  {
    hide SplitMem, Tiles, TileOk;
    var b := bs[i];
    var m := AllocMem(mem, b, need);
    Distinct(mem, base, bs);
    InArenaStart(mem, base, bs, i);
    if Splits(mem, b, need) {
      SplitTiles(mem, base, bs, i, need);
      SplitFacts(mem, base, bs, i, need);
      MarkTiles(SplitMem(mem, b, need), base, SplitList(bs, i, need), i, USED);
      hide SplitList;
      SplitCoalesced(mem, m, base, bs, i, need);
    } else {
      MarkTiles(mem, base, bs, i, USED);
    }
  }

  lemma SplitFacts(mem: Memory, base: nat, bs: seq<nat>, i: nat, need: nat)
    requires Tiles(mem, base, bs) && i < |bs| && HEADER < need && need % 16 == 0 && need + HEADER < At(mem, bs[i]).size
    ensures var m, l := SplitMem(mem, bs[i], need), SplitList(bs, i, need);
            && At(m, bs[i]).size == need && Free(m, bs[i] + need) && Local(mem, m, base)
            && l[i] == bs[i] && l[i + 1] == bs[i] + need
            && (forall k :: 0 <= k < |bs| ==> bs[k] in l && bs[k] != bs[i] + need)
            && (forall x :: x in l && x !in bs ==> x == bs[i] + need)
  {
    var m, l := SplitMem(mem, bs[i], need), SplitList(bs, i, need);
    assert TileOk(mem, base, bs, i);
    InArena(mem, base, bs, i);
    forall k | 0 <= k < |bs| ensures bs[k] in l && bs[k] != bs[i] + need {
      if k < i { Ascending(mem, base, bs, k, i); assert TileOk(mem, base, bs, k); }
      if k > i { Ascending(mem, base, bs, i, k); }
      assert if k <= i then l[k] == bs[k] else l[k + 1] == bs[k];
    }
    assert At(mem, bs[i]).next != bs[i] + need;
    if i + 1 < |bs| { InArenaStart(mem, base, bs, i + 1); }
    forall x: nat ensures At(m, x) == SplitAt(mem, bs[i], need, x) { SplitMemAt(mem, bs[i], need, x); }
  }

  lemma SplitCoalesced(mem: Memory, m: Memory, base: nat, bs: seq<nat>, i: nat, need: nat)
    requires Tiles(mem, base, bs) && Coalesced(mem, bs) && i < |bs| && Free(mem, bs[i])
    requires !Free(m, bs[i])
    requires forall k :: 0 <= k < |bs| && k != i ==> At(m, bs[k]).magic == At(mem, bs[k]).magic
    ensures Coalesced(m, SplitList(bs, i, need))
  {
    hide At;
    var l := SplitList(bs, i, need);
    forall k | 0 <= k < |l| - 1 ensures !(Free(m, l[k]) && Free(m, l[k + 1])) {
      if k < i { assert l[k] == bs[k] && l[k + 1] == bs[k + 1]; }
      else if k == i { assert l[k] == bs[i]; }
      else if k == i + 1 { assert l[k + 1] == bs[i + 1]; assert !(Free(mem, bs[i]) && Free(mem, bs[i + 1])); }
      else { assert l[k] == bs[k - 1] && l[k + 1] == bs[k - 1 + 1]; }
    }
  }

  // -------------------------------------------------------------------- free

  /** `merge_with_next`. */
  function MergeNext(mem: Memory, b: nat): Memory {
    var n := At(mem, b).next;
    if n != 0 && Free(mem, n) then MergeMem(mem, b) else mem
  }

  function MergeNextList(mem: Memory, bs: seq<nat>, i: nat): seq<nat>
    requires i < |bs|
  {
    if i + 1 < |bs| && Free(mem, bs[i + 1]) then MergeList(bs, i) else bs
  }

  /** Neighbours from `lo` to `hi` may both be free, no others. */
  ghost predicate CoalescedBut(mem: Memory, bs: seq<nat>, lo: int, hi: int) {
    forall k :: 0 <= k < |bs| - 1 && !(lo <= k < hi) ==> !(Free(mem, bs[k]) && Free(mem, bs[k + 1]))
  }

  /** What merging keeps of the other blocks. */
  ghost predicate OthersKept(mem: Memory, m: Memory, bs: seq<nat>, l: seq<nat>) {
    && (forall x :: x in bs && At(mem, x).magic == USED ==>
          x in l && At(m, x).magic == USED && At(m, x).size == At(mem, x).size)
    && (forall x :: x in l ==> x in bs && At(m, x).magic == At(mem, x).magic)
  }

  lemma MergeLocal(mem: Memory, base: nat, bs: seq<nat>, i: nat)
    requires Tiles(mem, base, bs) && i + 1 < |bs|
    ensures Local(mem, MergeMem(mem, bs[i]), base)
  {
    assert TileOk(mem, base, bs, i) && TileOk(mem, base, bs, i + 1);
    InArenaStart(mem, base, bs, i);
    Distinct(mem, base, bs);
    if i + 2 < |bs| { InArenaStart(mem, base, bs, i + 2); }
    forall x: nat | !(base <= x < base + ARENA) ensures At(MergeMem(mem, bs[i]), x) == At(mem, x) {
      MergeMemAt(mem, bs[i], x);
    }
  }

  lemma MergeCoalesced(mem: Memory, m: Memory, bs: seq<nat>, i: nat, lo: int)
    requires i + 1 < |bs| && lo <= i && Free(mem, bs[i]) && Free(mem, bs[i + 1]) && CoalescedBut(mem, bs, lo, i + 1)
    requires forall k :: 0 <= k < |bs| ==> At(m, bs[k]).magic == At(mem, bs[k]).magic
    ensures CoalescedBut(m, MergeList(bs, i), lo, i)
  {
    hide At;
    var l := MergeList(bs, i);
    forall k | 0 <= k < |l| - 1 && !(lo <= k < i) ensures !(Free(m, l[k]) && Free(m, l[k + 1])) {
      if k < i { assert l[k] == bs[k] && l[k + 1] == bs[k + 1]; }
      else {
        assert l[k + 1] == bs[k + 1 + 1];
        assert k > i ==> l[k] == bs[k + 1];
        assert !(Free(mem, bs[k + 1]) && Free(mem, bs[k + 1 + 1]));
      }
    }
  }

  lemma MergeKept(mem: Memory, m: Memory, bs: seq<nat>, i: nat)
    requires i + 1 < |bs| && Free(mem, bs[i]) && Free(mem, bs[i + 1])
    requires forall k :: 0 <= k < |bs| ==> At(m, bs[k]).magic == At(mem, bs[k]).magic
    requires forall k :: 0 <= k < |bs| && k != i ==> At(m, bs[k]).size == At(mem, bs[k]).size
    ensures OthersKept(mem, m, bs, MergeList(bs, i))
  {
    hide At;
    var l := MergeList(bs, i);
    forall x | x in bs && At(mem, x).magic == USED
      ensures x in l && At(m, x).magic == USED && At(m, x).size == At(mem, x).size
    {
      var k :| 0 <= k < |bs| && bs[k] == x;
      assert k != i && k != i + 1;
      assert if k < i then l[k] == x else l[k - 1] == x;
    }
  }

  lemma MergeNextArena(mem: Memory, base: nat, bs: seq<nat>, i: nat, lo: int)
    requires Tiles(mem, base, bs) && i < |bs| && Free(mem, bs[i]) && CoalescedBut(mem, bs, lo, i + 1) && lo <= i
    ensures var m, l := MergeNext(mem, bs[i]), MergeNextList(mem, bs, i);
            && Tiles(m, base, l) && CoalescedBut(m, l, lo, i) && Local(mem, m, base) && OthersKept(mem, m, bs, l)
            && i < |l| && l[..i + 1] == bs[..i + 1] && Free(m, l[i])
  {
    assert TileOk(mem, base, bs, i);
    hide At, MergeMem, TileOk, Tiles;
    if i + 1 < |bs| { InArena(mem, base, bs, i + 1); }
    if i + 1 < |bs| && Free(mem, bs[i + 1]) {
      MergeTiles(mem, base, bs, i);
      MergeLocal(mem, base, bs, i);
      MergeCoalesced(mem, MergeMem(mem, bs[i]), bs, i, lo);
      MergeKept(mem, MergeMem(mem, bs[i]), bs, i);
    }
  }

  /** The arena part of `free`. */
  function FreeMem(mem: Memory, b: nat): Memory {
    var m1 := MergeNext(mem[b := At(mem, b).(magic := FREE)], b);
    var p := At(m1, b).prev;
    if p != 0 && Free(m1, p) then MergeNext(m1, p) else m1
  }

  function FreeList(mem: Memory, bs: seq<nat>, i: nat): seq<nat>
    requires i < |bs|
  {
    var m0 := mem[bs[i] := At(mem, bs[i]).(magic := FREE)];
    var l := MergeNextList(m0, bs, i);
    if i > 0 && Free(MergeNext(m0, bs[i]), bs[i - 1]) && i < |l| then MergeNextList(MergeNext(m0, bs[i]), l, i - 1)
      else l
  }

  lemma FreeArena(mem: Memory, base: nat, bs: seq<nat>, i: nat)
    requires Tiles(mem, base, bs) && Coalesced(mem, bs) && i < |bs| && At(mem, bs[i]).magic == USED
    ensures var m, l := FreeMem(mem, bs[i]), FreeList(mem, bs, i);
            && Tiles(m, base, l) && Coalesced(m, l) && Local(mem, m, base)
            && (forall x :: x in l ==> x in bs)
            && (bs[i] in l ==> At(m, bs[i]).magic == FREE)
            && (forall x :: x in bs && x != bs[i] && At(mem, x).magic == USED ==>
                  x in l && At(m, x).magic == USED && At(m, x).size == At(mem, x).size)
            && (forall x :: x in l && x != bs[i] ==> At(m, x).magic == At(mem, x).magic)
  {
    hide Tiles, TileOk, Coalesced, CoalescedBut, OthersKept, Local, MergeNext, MergeNextList, At;
    var b := bs[i];
    var m0 := mem[b := At(mem, b).(magic := FREE)];
    MarkFreed(mem, base, bs, i);
    MergeNextArena(m0, base, bs, i, i - 1);
    var m1, l := MergeNext(m0, b), MergeNextList(m0, bs, i);
    SamePrefix(bs, l, i);
    PrevLink(m1, base, l, i);
    if i > 0 && Free(m1, bs[i - 1]) {
      MergeNextArena(m1, base, l, i - 1, i - 1);
      NoneExcepted(MergeNext(m1, bs[i - 1]), MergeNextList(m1, l, i - 1), i - 1);
      KeptTrans(m0, m1, MergeNext(m1, bs[i - 1]), bs, l, MergeNextList(m1, l, i - 1));
      LocalTrans(m0, m1, MergeNext(m1, bs[i - 1]), base);
      FreedKept(mem, MergeNext(m1, bs[i - 1]), base, bs, MergeNextList(m1, l, i - 1), i);
    } else {
      if i > 0 { PairAt(m1, l, i); } else { NothingBefore(m1, l); }
      FreedKept(mem, m1, base, bs, l, i);
    }
  }

  lemma MarkFreed(mem: Memory, base: nat, bs: seq<nat>, i: nat)
    requires Tiles(mem, base, bs) && Coalesced(mem, bs) && i < |bs|
    ensures var m0 := mem[bs[i] := At(mem, bs[i]).(magic := FREE)];
            Tiles(m0, base, bs) && CoalescedBut(m0, bs, i - 1, i + 1) && Free(m0, bs[i])
  {
    var m0 := mem[bs[i] := At(mem, bs[i]).(magic := FREE)];
    MarkTiles(mem, base, bs, i, FREE);
    Distinct(mem, base, bs);
    forall k | 0 <= k < |bs| - 1 && !(i - 1 <= k < i + 1) ensures !(Free(m0, bs[k]) && Free(m0, bs[k + 1])) {
      assert bs[k] != bs[i] && bs[k + 1] != bs[i];
    }
  }

  lemma SamePrefix(bs: seq<nat>, l: seq<nat>, i: nat)
    requires i < |bs| && i < |l| && l[..i + 1] == bs[..i + 1]
    ensures forall k :: 0 <= k <= i ==> l[k] == bs[k]
  {
    forall k | 0 <= k <= i ensures l[k] == bs[k] { assert l[k] == l[..i + 1][k] == bs[..i + 1][k]; }
  }

  lemma PrevLink(mem: Memory, base: nat, l: seq<nat>, i: nat)
    requires Tiles(mem, base, l) && i < |l|
    ensures At(mem, l[i]).prev == PrevOf(l, i) && (i > 0 ==> l[i - 1] != 0)
  {
    assert TileOk(mem, base, l, i);
    if i > 0 { InArena(mem, base, l, i - 1); }
  }

  lemma KeptTrans(a: Memory, b: Memory, c: Memory, p: seq<nat>, q: seq<nat>, r: seq<nat>)
    requires OthersKept(a, b, p, q) && OthersKept(b, c, q, r)
    ensures OthersKept(a, c, p, r)
  {}

  lemma LocalTrans(a: Memory, b: Memory, c: Memory, base: nat)
    requires Local(a, b, base) && Local(b, c, base)
    ensures Local(a, c, base)
  {
    hide At;
    forall x: nat | !(base <= x < base + ARENA) ensures At(c, x) == At(a, x) { assert At(b, x) == At(a, x); }
  }

  lemma NoneExcepted(m: Memory, l: seq<nat>, i: int)
    requires CoalescedBut(m, l, i, i)
    ensures Coalesced(m, l)
  {}

  lemma NothingBefore(m: Memory, l: seq<nat>)
    requires CoalescedBut(m, l, -1, 0)
    ensures Coalesced(m, l)
  {}

  lemma FreedKept(mem: Memory, m: Memory, base: nat, bs: seq<nat>, l: seq<nat>, i: nat)
    requires Tiles(mem, base, bs) && i < |bs|
    requires var m0 := mem[bs[i] := At(mem, bs[i]).(magic := FREE)]; OthersKept(m0, m, bs, l) && Local(m0, m, base)
    ensures Local(mem, m, base)
    ensures forall x :: x in l ==> x in bs
    ensures bs[i] in l ==> At(m, bs[i]).magic == FREE
    ensures forall x :: x in bs && x != bs[i] && At(mem, x).magic == USED ==>
              x in l && At(m, x).magic == USED && At(m, x).size == At(mem, x).size
    ensures forall x :: x in l && x != bs[i] ==> At(m, x).magic == At(mem, x).magic
  {
    InArenaStart(mem, base, bs, i);
    var m0 := mem[bs[i] := At(mem, bs[i]).(magic := FREE)];
    forall x: nat | x != bs[i] ensures At(m0, x) == At(mem, x) {}
    forall x: nat | !(base <= x < base + ARENA) ensures At(m, x) == At(mem, x) { assert At(m0, x) == At(mem, x); }
  }

  lemma PairAt(m: Memory, l: seq<nat>, i: nat)
    requires 0 < i < |l| && CoalescedBut(m, l, i - 1, i) && !Free(m, l[i - 1])
    ensures Coalesced(m, l)
  {
    forall k | 0 <= k < |l| - 1 ensures !(Free(m, l[k]) && Free(m, l[k + 1])) {
      if k == i - 1 { assert !Free(m, l[k]); }
    }
  }

  // --------------------------------------------------------------- the library

  function Need(size: nat): nat { (size + HEADER + 15) / 16 * 16 }
  function Pages(need: nat): nat { (need + PAGE - 1) / PAGE * PAGE }

  /** A request is rounded up to 16 bytes with its header of 24, a mapping to whole pages. */
  lemma Rounded(size: nat)
    ensures Need(size) % 16 == 0 && size + 24 <= Need(size) < size + 40
    ensures Pages(Need(size)) % 4096 == 0 && Need(size) <= Pages(Need(size)) < Need(size) + 4096
  {}

  /** The first free block of at least `need` bytes, in order of arenas and addresses. */
  ghost predicate FirstFit(h: Heap, need: nat, b: nat) {
    exists a: nat, i: nat :: FitsAt(h, need, a, i) && h.lists[a][i] == b && FirstAt(h, need, a, i)
  }

  ghost predicate FirstAt(h: Heap, need: nat, a: nat, i: nat) {
    forall c: nat, k: nat :: FitsAt(h, need, c, k) ==> c > a || (c == a && k >= i)
  }

  /** Block `b` was made from a free block of `was` bytes: a rest of 88 bytes or more was cut off
      and is one free block right behind it; a smaller rest stays in the block. */
  ghost predicate CutFrom(mem: Memory, b: nat, need: nat, was: nat) {
    && At(mem, b).magic == USED && need <= was
    && if was < need + 88 then At(mem, b).size == was
       else
         && At(mem, b).size == need && At(mem, b).next == b + need
         && At(mem, b + need).magic == FREE && At(mem, b + need).size == was - need && At(mem, b + need).prev == b
  }

  lemma Allocated(mem: Memory, b: nat, need: nat)
    requires 0 < need <= At(mem, b).size && (At(mem, b).next == 0 || At(mem, b).next >= b + At(mem, b).size)
    ensures CutFrom(AllocMem(mem, b, need), b, need, At(mem, b).size)
  {
    if Splits(mem, b, need) { SplitMemAt(mem, b, need, b + need); SplitMemAt(mem, b, need, b); }
  }

  /** The length of the mapping that a request of `size` may ask the kernel for. */
  function MapLength(size: nat): nat { if Need(size) > ARENA then Pages(Need(size)) else ARENA }

  /** The kernel's promise: a fresh mapping overlaps nothing that is mapped. */
  ghost predicate Fresh(h: Heap, base: nat, len: nat)
    requires |h.arenas| == |h.lists|
  {
    && base > 0 && base % PAGE == 0
    && (forall a :: 0 <= a < |h.arenas| ==> Apart(h.arenas[a], ARENA, base, len))
    && (forall l :: l in h.large ==> Apart(l, At(h.mem, l).size, base, len))
  }

  ghost predicate FitsAt(h: Heap, need: nat, a: nat, i: nat) {
    a < |h.lists| && i < |h.lists[a]| && Free(h.mem, h.lists[a][i]) && At(h.mem, h.lists[a][i]).size >= need
  }

  ghost predicate Fits(h: Heap, need: nat) { exists a: nat, i: nat :: FitsAt(h, need, a, i) }

  /** A fresh mapping holds no header of ours, so writing one there disturbs nothing. */
  lemma FreshHeader(h: Heap, base: nat, len: nat, x: Header)
    requires Ok(h) && Fresh(h, base, len) && len > 0
    ensures var m := h.mem[base := x];
            && At(m, base) == x && base !in h.large
            && (forall a :: 0 <= a < |h.lists| ==>
                  Tiles(m, h.arenas[a], h.lists[a]) && Coalesced(m, h.lists[a]) && base !in h.lists[a])
            && (forall l :: l in h.large ==> LargeOk(m, l) && At(m, l) == At(h.mem, l))
            && (forall y: nat :: y != base ==> At(m, y) == At(h.mem, y))
  {
    hide Tiles, Coalesced;
    var m := h.mem[base := x];
    forall a | 0 <= a < |h.lists|
      ensures Tiles(m, h.arenas[a], h.lists[a]) && Coalesced(m, h.lists[a]) && base !in h.lists[a]
    {
      forall i | 0 <= i < |h.lists[a]| ensures h.lists[a][i] != base {
        InArenaStart(h.mem, h.arenas[a], h.lists[a], i);
      }
      TilesFrame(h.mem, m, h.arenas[a], h.lists[a]);
    }
    forall l | l in h.large ensures l != base { assert LargeOk(h.mem, l); }
  }

  lemma WholeTile(m: Memory, base: nat)
    requires base > 0 && base % 16 == 0 && At(m, base) == Header(FREE, ARENA, 0, 0)
    ensures Tiles(m, base, [base]) && Coalesced(m, [base])
  {
    assert TileOk(m, base, [base], 0);
  }

  lemma PageAligned(base: nat)
    requires base % PAGE == 0
    ensures base % 16 == 0
  {
    Times16(256 * (base / PAGE));
  }

  lemma Times16(k: nat)
    ensures (16 * k) % 16 == 0
  {}

  lemma NewArenaOk(h: Heap, base: nat)
    requires Ok(h) && Fresh(h, base, ARENA) && |h.arenas| < MAX_ARENAS
    ensures var g := Heap(h.mem[base := Header(FREE, ARENA, 0, 0)], h.arenas + [base], h.lists + [[base]], h.large);
            && Ok(g) && FitsAt(g, ARENA, |h.arenas|, 0)
            && (forall x :: Live(g, x) <==> Live(h, x))
            && (forall x :: Live(h, x) ==> At(g.mem, x) == At(h.mem, x))
  {
    hide Tiles, Coalesced, LargeOk, Live, At;
    var m := h.mem[base := Header(FREE, ARENA, 0, 0)];
    var g := Heap(m, h.arenas + [base], h.lists + [[base]], h.large);
    FreshHeader(h, base, ARENA, Header(FREE, ARENA, 0, 0));
    PageAligned(base);
    WholeTile(m, base);
    forall a | 0 <= a < |g.lists| ensures Tiles(m, g.arenas[a], g.lists[a]) && Coalesced(m, g.lists[a]) {
      if a < |h.lists| { assert g.lists[a] == h.lists[a] && g.arenas[a] == h.arenas[a]; }
    }
    assert FitsAt(g, ARENA, |h.arenas|, 0);
    forall x ensures (Live(g, x) <==> Live(h, x)) && (Live(h, x) ==> At(m, x) == At(h.mem, x)) {
      NewArenaLive(h, base, x);
    }
  }

  lemma NewArenaLive(h: Heap, base: nat, x: nat)
    requires Ok(h) && (forall a :: 0 <= a < |h.lists| ==> base !in h.lists[a]) && base !in h.large
    ensures var g := Heap(h.mem[base := Header(FREE, ARENA, 0, 0)], h.arenas + [base], h.lists + [[base]], h.large);
            (Live(g, x) <==> Live(h, x)) && (Live(h, x) ==> At(g.mem, x) == At(h.mem, x))
  {
    var g := Heap(h.mem[base := Header(FREE, ARENA, 0, 0)], h.arenas + [base], h.lists + [[base]], h.large);
    if InLists(h, x) { var a :| 0 <= a < |h.lists| && x in h.lists[a]; assert g.lists[a] == h.lists[a]; }
    if InLists(g, x) { var a :| 0 <= a < |g.lists| && x in g.lists[a]; if a < |h.lists| {
      assert g.lists[a] == h.lists[a]; }
    }
  }

  lemma NewLargeOk(h: Heap, base: nat, total: nat)
    requires Ok(h) && Fresh(h, base, total) && total > HEADER
    ensures var g := Heap(h.mem[base := Header(LARGE, total, 0, 0)], h.arenas, h.lists, h.large + {base});
            && Ok(g) && !Live(h, base)
            && (forall x :: Live(g, x) <==> Live(h, x) || x == base)
            && (forall x :: Live(h, x) ==> At(g.mem, x) == At(h.mem, x))
  {
    hide Tiles, Coalesced, At;
    FreshHeader(h, base, total, Header(LARGE, total, 0, 0));
    var m := h.mem[base := Header(LARGE, total, 0, 0)];
    assert LargeOk(m, base);
  }

  /** One allocation inside arena `a`, seen on the whole heap. */
  lemma AllocHeap(h: Heap, a: nat, i: nat, need: nat)
    requires Ok(h) && FitsAt(h, need, a, i) && HEADER < need && need % 16 == 0
    ensures var b := h.lists[a][i];
            var g := Heap(AllocMem(h.mem, b, need), h.arenas, h.lists[a := AllocList(h.mem, h.lists[a], i, need)],
              h.large);
            && Ok(g) && !Live(h, b) && At(g.mem, b).size >= need
            && (forall x :: Live(g, x) <==> Live(h, x) || x == b)
            && (forall x :: Live(h, x) ==> At(g.mem, x).size == At(h.mem, x).size)
  {
    hide AllocMem, AllocList, Tiles, Coalesced;
    var bs, b := h.lists[a], h.lists[a][i];
    var m, l := AllocMem(h.mem, b, need), AllocList(h.mem, bs, i, need);
    AllocArena(h.mem, h.arenas[a], bs, i, need);
    LocalOk(h, m, a, l);
    var g := Heap(m, h.arenas, h.lists[a := l], h.large);
    Distinct(h.mem, h.arenas[a], bs);
    forall x ensures (Live(g, x) <==> Live(h, x) || x == b) && (Live(h, x) ==> At(m, x).size == At(h.mem, x).size) {
      LiveAfter(h, m, a, l, x);
      if x in bs { var k :| 0 <= k < |bs| && bs[k] == x; }
    }
    LiveAfter(h, m, a, l, b);
  }

  lemma FreeHeap(h: Heap, a: nat, i: nat)
    requires Ok(h) && a < |h.lists| && i < |h.lists[a]| && At(h.mem, h.lists[a][i]).magic == USED
    ensures var b := h.lists[a][i];
            var g := Heap(FreeMem(h.mem, b), h.arenas, h.lists[a := FreeList(h.mem, h.lists[a], i)], h.large);
            && Ok(g)
            && (forall x :: Live(g, x) <==> Live(h, x) && x != b)
            && (forall x :: Live(g, x) ==> At(g.mem, x).size == At(h.mem, x).size)
  {
    hide FreeMem, FreeList, Tiles, Coalesced;
    var bs, b := h.lists[a], h.lists[a][i];
    var m, l := FreeMem(h.mem, b), FreeList(h.mem, bs, i);
    FreeArena(h.mem, h.arenas[a], bs, i);
    LocalOk(h, m, a, l);
    var g := Heap(m, h.arenas, h.lists[a := l], h.large);
    forall x ensures (Live(g, x) <==> Live(h, x) && x != b) && (Live(g, x) ==> At(m, x).size == At(h.mem, x).size) {
      LiveAfter(h, m, a, l, x);
    }
  }

  lemma Unmapped(h: Heap, b: nat)
    requires Ok(h) && b in h.large
    ensures var g := h.(large := h.large - {b});
            Ok(g) && (forall x :: Live(g, x) <==> Live(h, x) && x != b)
  {
    var g := h.(large := h.large - {b});
    forall x ensures InLists(g, x) <==> InLists(h, x) {}
    assert !InLists(h, b) by {
      if InLists(h, b) { var a :| 0 <= a < |h.lists| && b in h.lists[a]; NotLarge(h, a, b); }
    }
  }

  class Allocator {
    var mem: Memory
    var arenas: seq<nat>
    ghost var lists: seq<seq<nat>>
    ghost var large: set<nat>

    ghost function H(): Heap
      reads this
    {
      Heap(mem, arenas, lists, large)
    }

    ghost predicate Valid()
      reads this
    {
      Ok(H())
    }

    constructor ()
      ensures Valid() && forall x :: !Live(H(), x)
    {
      mem, arenas, lists, large := map[], [], [], {};
    }

    /** `new_arena`; `mm` is what the kernel answers. */
    method NewArena(mm: int) returns (b: nat)
      requires Valid() && (mm >= 0 ==> Fresh(H(), mm, ARENA))
      modifies this
      ensures Valid()
      ensures b == 0 <==> |old(arenas)| >= MAX_ARENAS || mm < 0
      ensures b == 0 ==> H() == old(H())
      ensures b != 0 ==> FitsAt(H(), ARENA, |old(arenas)|, 0) && lists[|old(arenas)|][0] == b && large == old(large)
      ensures b != 0 ==> b == mm && At(mem, b).size == ARENA
      ensures forall x :: Live(H(), x) <==> Live(old(H()), x)
      ensures forall x :: Live(H(), x) ==> At(mem, x) == At(old(mem), x)
    {
      if |arenas| >= MAX_ARENAS { return 0; }
      if mm < 0 { return 0; }
      NewArenaOk(H(), mm);
      hide Ok, Live, Fresh;
      b := mm;
      mem := mem[b := Header(FREE, ARENA, 0, 0)];
      arenas := arenas + [b];
      lists := lists + [[b]];
    }

    /** `find_free_block`: the first fit, arena by arena, following the next links. */
    method FindFree(need: nat) returns (b: nat, ghost a: nat, ghost i: nat)
      requires Valid()
      ensures b == 0 ==> !Fits(H(), need)
      ensures b != 0 ==> FitsAt(H(), need, a, i) && lists[a][i] == b
      ensures b != 0 ==> FirstAt(H(), need, a, i)
    {
      a, i := 0, 0;
      for n := 0 to |arenas|
        invariant forall c: nat, k: nat :: FitsAt(H(), need, c, k) ==> c >= n
      {
        b := arenas[n];
        ghost var j := 0;
        assert Tiles(mem, arenas[n], lists[n]);
        while b != 0
          invariant 0 <= j <= |lists[n]| && (b != 0 ==> j < |lists[n]| && b == lists[n][j])
          invariant b == 0 ==> j == |lists[n]|
          invariant forall c: nat, k: nat :: FitsAt(H(), need, c, k) ==> c > n || (c == n && k >= j)
          decreases |lists[n]| - j, b
        {
          assert TileOk(mem, arenas[n], lists[n], j);
          if At(mem, b).magic == FREE && At(mem, b).size >= need {
            a, i := n, j;
            return;
          }
          if j + 1 < |lists[n]| { InArena(mem, arenas[n], lists[n], j + 1); }
          b := At(mem, b).next;
          j := j + 1;
        }
      }
      b := 0;
    }

    method SplitBlock(b: nat, need: nat)
      requires 0 < need <= At(mem, b).size && At(mem, b).next != b
      modifies this`mem
      ensures mem == if Splits(old(mem), b, need) then SplitMem(old(mem), b, need) else old(mem)
    {
      var h := At(mem, b);
      var remaining := h.size - need;
      if remaining < HEADER + SPLIT_THRESHOLD { return; }
      var tail := b + need;
      mem := mem[tail := Header(FREE, remaining, h.next, b)];
      if h.next != 0 { mem := mem[h.next := At(mem, h.next).(prev := tail)]; }
      mem := mem[b := At(mem, b).(next := tail)];
      mem := mem[b := At(mem, b).(size := need)];
    }

    method MergeWithNext(b: nat)
      requires At(mem, b).next != b && (At(mem, b).next != 0 ==> At(mem, At(mem, b).next).next != b)
      modifies this`mem
      ensures mem == MergeNext(old(mem), b)
    {
      var n := At(mem, b).next;
      if n != 0 && At(mem, n).magic == FREE {
        mem := mem[b := At(mem, b).(size := At(mem, b).size + At(mem, n).size)];
        mem := mem[b := At(mem, b).(next := At(mem, n).next)];
        if At(mem, n).next != 0 { mem := mem[At(mem, n).next := At(mem, At(mem, n).next).(prev := b)]; }
      }
    }

    /** `malloc`; `mm` is what the kernel answers if it is asked for a mapping. */
    method Malloc(size: nat, mm: int) returns (p: nat)
      requires Valid() && size < 0x8000_0000
      requires mm >= 0 ==> Fresh(H(), mm, MapLength(size))
      modifies this
      ensures Valid()
      ensures p == 0 <==> size == 0 || (mm < 0 && Need(size) > ARENA)
                          || (Need(size) <= ARENA && !Fits(old(H()), Need(size))
                            && (mm < 0 || |old(arenas)| >= MAX_ARENAS))
      ensures p == 0 ==> H() == old(H())
      ensures p != 0 ==> p > HEADER && !Live(old(H()), p - HEADER) && At(mem, p - HEADER).size >= HEADER + size
      ensures p != 0 ==> forall x :: Live(H(), x) <==> Live(old(H()), x) || x == p - HEADER
      ensures forall x :: Live(old(H()), x) ==> At(mem, x).size == At(old(mem), x).size
      ensures p != 0 && Need(size) <= 65536 && Fits(old(H()), Need(size)) ==>
                && FirstFit(old(H()), Need(size), p - 24)
                && CutFrom(mem, p - 24, Need(size), At(old(mem), p - 24).size)
      ensures p != 0 && Need(size) <= 65536 && !Fits(old(H()), Need(size)) ==>
                p == mm + 24 && CutFrom(mem, p - 24, Need(size), 65536)
      ensures p != 0 && Need(size) <= 65536 ==> At(mem, p - 24).size < Need(size) + 88
      ensures p != 0 && Need(size) > 65536 ==> p == mm + 24 && At(mem, mm) == Header(LARGE, Pages(Need(size)), 0, 0)
    {
      hide Ok, Live, Fits, FirstFit, CutFrom, Fresh;
      if size == 0 { return 0; }
      var need := Need(size);
      Rounded(size);
      hide Need, Pages;
      if need > ARENA { p := MapLarge(need, mm); } else { p := TakeBlock(need, mm); }
    }

    /** A request that fits no arena gets a mapping of its own. */
    method MapLarge(need: nat, mm: int) returns (p: nat)
      requires Valid() && need > ARENA && (mm >= 0 ==> Fresh(H(), mm, Pages(need)))
      modifies this
      ensures Valid() && (p == 0 <==> mm < 0)
      ensures p == 0 ==> H() == old(H())
      ensures p != 0 ==> p == mm + HEADER && mm > 0 && !Live(old(H()), mm)
      ensures p != 0 ==> At(mem, mm) == Header(LARGE, Pages(need), 0, 0)
      ensures p != 0 ==> forall x :: Live(H(), x) <==> Live(old(H()), x) || x == mm
      ensures forall x :: Live(old(H()), x) ==> At(mem, x).size == At(old(mem), x).size
    {
      hide Live;
      var total := Pages(need);
      if mm < 0 { return 0; }
      NewLargeOk(H(), mm, total);
      hide Ok;
      mem := mem[mm := Header(LARGE, total, 0, 0)];
      large := large + {mm};
      p := mm + HEADER;
    }

    /** Any other is cut from the first block that fits, or from a new arena. */
    method TakeBlock(need: nat, mm: int) returns (p: nat)
      requires Valid() && HEADER < need <= ARENA && need % 16 == 0 && (mm >= 0 ==> Fresh(H(), mm, ARENA))
      modifies this
      ensures Valid()
      ensures p == 0 <==> !Fits(old(H()), need) && (mm < 0 || |old(arenas)| >= MAX_ARENAS)
      ensures p == 0 ==> H() == old(H())
      ensures p != 0 ==> p > HEADER && !Live(old(H()), p - HEADER) && need <= At(mem, p - HEADER).size < need + 88
      ensures p != 0 ==> forall x :: Live(H(), x) <==> Live(old(H()), x) || x == p - HEADER
      ensures forall x :: Live(old(H()), x) ==> At(mem, x).size == At(old(mem), x).size
      ensures p != 0 && Fits(old(H()), need) ==>
                FirstFit(old(H()), need, p - HEADER) && CutFrom(mem, p - HEADER, need, At(old(mem), p - HEADER).size)
      ensures p != 0 && !Fits(old(H()), need) ==> p == mm + HEADER && CutFrom(mem, mm, need, ARENA)
    {
      hide Ok, Live, Fits, FirstFit, CutFrom, FirstAt, Fresh;
      var b;
      ghost var a, i;
      b, a, i := FindFree(need);
      if b != 0 { FoundFits(H(), need, a, i); }
      if b == 0 {
        ghost var n := |arenas|;
        b := NewArena(mm);
        if b == 0 { return 0; }
        a, i := n, 0;
      }
      p := Grant(b, need, a, i);
    }

    /** The end of `malloc`: splits the block found and marks it used. */
    method Grant(b: nat, need: nat, ghost a: nat, ghost i: nat) returns (p: nat)
      requires Valid() && FitsAt(H(), need, a, i) && lists[a][i] == b && HEADER < need && need % 16 == 0
      modifies this
      ensures Valid() && p == b + HEADER && !Live(old(H()), b) && At(mem, b).size >= need && b > 0
      ensures CutFrom(mem, b, need, At(old(mem), b).size) && At(mem, b).size < need + 88
      ensures forall x :: Live(H(), x) <==> Live(old(H()), x) || x == b
      ensures forall x :: Live(old(H()), x) ==> At(mem, x).size == At(old(mem), x).size
    {
      AllocHeap(H(), a, i, need);
      assert TileOk(mem, arenas[a], lists[a], i);
      InArenaStart(mem, arenas[a], lists[a], i);
      Distinct(mem, arenas[a], lists[a]);
      ghost var l := AllocList(mem, lists[a], i, need);
      Allocated(mem, b, need);
      hide Ok, Live;
      SplitBlock(b, need);
      mem := mem[b := At(mem, b).(magic := USED)];
      lists := lists[a := l];
      p := b + HEADER;
    }

    /** `free`: a NULL pointer and a block that is already free are ignored. */
    method Free(p: nat)
      requires Valid()
      requires p != 0 ==> p > HEADER && Genuine(H(), p - HEADER)
      modifies this
      ensures Valid()
      ensures forall x :: Live(H(), x) <==> Live(old(H()), x) && x != p - HEADER
      ensures forall x :: Live(H(), x) ==> At(mem, x).size == At(old(mem), x).size
      ensures p != 0 && old(At(mem, p - HEADER)).magic == USED ==> At(mem, p - HEADER).magic == FREE
    {
      if p == 0 { return; }
      var b := p - HEADER;
      if At(mem, b).magic == LARGE {
        LargeNotListed(H(), b);
        Unmapped(H(), b);
        hide Ok, Live;
        large := large - {b};
        return;
      }
      if At(mem, b).magic != USED { return; }
      Release(b);
    }

    /** The arena half of `free`: marks the block free and merges it both ways. */
    method Release(b: nat)
      requires Valid() && At(mem, b).magic == USED && Live(H(), b)
      modifies this
      ensures Valid()
      ensures forall x :: Live(H(), x) <==> Live(old(H()), x) && x != b
      ensures forall x :: Live(H(), x) ==> At(mem, x).size == At(old(mem), x).size
      ensures At(mem, b).magic == FREE
    {
      ghost var a, i := Locate(H(), b);
      FreeHeap(H(), a, i);
      FreeLinks(mem, arenas[a], lists[a], i);
      ghost var l := FreeList(mem, lists[a], i);
      ghost var m := mem;
      hide Ok, Live;
      mem := mem[b := At(mem, b).(magic := FREE)];
      MergeWithNext(b);
      var q := At(mem, b).prev;
      if q != 0 && At(mem, q).magic == FREE {
        MergeWithNext(q);
      }
      assert mem == FreeMem(m, b);
      FreedMagic(m, b);
      lists := lists[a := l];
    }

    /** `malloc_usable_size`. */
    method UsableSize(p: nat) returns (n: nat)
      requires Valid() && (p != 0 ==> p > HEADER && Genuine(H(), p - HEADER))
      ensures n == if p != 0 && Live(H(), p - HEADER) then At(mem, p - HEADER).size - HEADER else 0
      ensures p != 0 && Live(H(), p - HEADER) ==> n > 0
    {
      if p == 0 { return 0; }
      LiveMagic(H(), p - HEADER);
      var h := At(mem, p - HEADER);
      if h.magic != USED && h.magic != LARGE { return 0; }
      n := h.size - HEADER;
    }
  }

  lemma FoundFits(h: Heap, need: nat, a: nat, i: nat)
    requires FitsAt(h, need, a, i) && FirstAt(h, need, a, i)
    ensures Fits(h, need) && FirstFit(h, need, h.lists[a][i])
  {}

  /** A freed header keeps its mark, merged or not. */
  lemma FreedMagic(mem: Memory, b: nat)
    ensures At(FreeMem(mem, b), b).magic == FREE
  {}

  lemma LiveMagic(h: Heap, b: nat)
    requires Ok(h) && Genuine(h, b)
    ensures Live(h, b) <==> At(h.mem, b).magic == USED || At(h.mem, b).magic == LARGE
    ensures Live(h, b) ==> At(h.mem, b).size > HEADER
  {
    if b in h.large { assert LargeOk(h.mem, b); } else if Live(h, b) {
      var a :| 0 <= a < |h.lists| && b in h.lists[a];
      var i :| 0 <= i < |h.lists[a]| && h.lists[a][i] == b;
      assert TileOk(h.mem, h.arenas[a], h.lists[a], i);
    }
  }

  lemma LargeNotListed(h: Heap, b: nat)
    requires Ok(h) && At(h.mem, b).magic == LARGE && Live(h, b)
    ensures b in h.large
  {}

  lemma Locate(h: Heap, b: nat) returns (a: nat, i: nat)
    requires Ok(h) && Live(h, b) && At(h.mem, b).magic == USED
    ensures a < |h.lists| && i < |h.lists[a]| && h.lists[a][i] == b
  {
    assert b !in h.large by { if b in h.large { LargeMagic(h, b); } }
    a :| 0 <= a < |h.lists| && b in h.lists[a];
    i :| 0 <= i < |h.lists[a]| && h.lists[a][i] == b;
  }

  lemma LargeMagic(h: Heap, b: nat)
    requires Ok(h) && b in h.large
    ensures At(h.mem, b).magic == LARGE
  {
    assert LargeOk(h.mem, b);
  }

  /** The links that `free` follows do not lead back to where it stands. */
  lemma FreeLinks(mem: Memory, base: nat, bs: seq<nat>, i: nat)
    requires Tiles(mem, base, bs) && Coalesced(mem, bs) && i < |bs| && At(mem, bs[i]).magic == USED
    ensures var b := bs[i];
            var m0 := mem[b := At(mem, b).(magic := FREE)];
            var m1 := MergeNext(m0, b);
            var q := At(m1, b).prev;
            && At(m0, b).next != b && (At(m0, b).next != 0 ==> At(m0, At(m0, b).next).next != b)
            && (q != 0 && Free(m1, q) ==> At(m1, q).next != q)
            && (q != 0 && Free(m1, q) && At(m1, q).next != 0 ==> At(m1, At(m1, q).next).next != q)
  {
    var b := bs[i];
    var m0 := mem[b := At(mem, b).(magic := FREE)];
    MarkTiles(mem, base, bs, i, FREE);
    Distinct(mem, base, bs);
    NoLoop(m0, base, bs, i);
    forall k | 0 <= k < |bs| - 1 && !(i - 1 <= k < i + 1) ensures !(Free(m0, bs[k]) && Free(m0, bs[k + 1])) {
      assert bs[k] != b && bs[k + 1] != b;
    }
    MergeNextArena(m0, base, bs, i, i - 1);
    var m1, l := MergeNext(m0, b), MergeNextList(m0, bs, i);
    assert l[i] == bs[..i + 1][i] == b;
    assert TileOk(m1, base, l, i);
    if i > 0 { NoLoop(m1, base, l, i - 1); }
  }

  lemma NoLoop(mem: Memory, base: nat, bs: seq<nat>, i: nat)
    requires Tiles(mem, base, bs) && i < |bs|
    ensures At(mem, bs[i]).next != bs[i] && (At(mem, bs[i]).next != 0 ==> At(mem, At(mem, bs[i]).next).next != bs[i])
  {
    assert TileOk(mem, base, bs, i);
    Distinct(mem, base, bs);
    InArena(mem, base, bs, i);
    if i + 1 < |bs| { assert TileOk(mem, base, bs, i + 1); InArena(mem, base, bs, i + 1); }
  }
}
