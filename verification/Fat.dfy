/** The file allocation table in its three widths: packed entries, the copies of the
    table, and freeing a cluster chain. Section 4 of the Microsoft FAT Specification. */
module Fat {

  import opened Bytes

  datatype Kind = Fat12 | Fat16 | Fat32

  // ------------------------------------------------------------ packed entries

  function Offset(kind: Kind, c: nat): nat {
    match kind
    case Fat12 => c + c / 2
    case Fat16 => 2 * c
    case Fat32 => 4 * c
  }

  function Width(kind: Kind): nat { if kind.Fat32? then 4 else 2 }

  /** How many different values an entry can hold. */
  function Range(kind: Kind): nat {
    match kind
    case Fat12 => 0x1000
    case Fat16 => 0x1_0000
    case Fat32 => 0x1000_0000
  }

  predicate Fits(kind: Kind, t: seq<Byte>, c: nat) { Offset(kind, c) + Width(kind) <= |t| }

  function Raw(kind: Kind, t: seq<Byte>, c: nat): (v: U32)
    requires Fits(kind, t, c)
    ensures v < Range(kind)
  {
    var o := Offset(kind, c);
    var lo: int, hi: int := t[o], t[o + 1];
    match kind
    case Fat12 => if c % 2 == 1 then (lo + 256 * hi) / 16 else (lo + 256 * hi) % 0x1000
    case Fat16 => lo + 256 * hi
    case Fat32 =>
      var lo2: int, hi2: int := t[o + 2], t[o + 3];
      (lo + 256 * hi + 0x1_0000 * lo2 + 0x100_0000 * hi2) % 0x1000_0000
  }

  /** The value of byte `j` of the table after storing `v` in entry `c`; `b` is the
      value before. Two FAT12 neighbours share a byte and keep their own halves. */
  function NewByte(kind: Kind, c: nat, v: U32, j: nat, b: Byte): Byte {
    var o := Offset(kind, c);
    match kind
    case Fat12 =>
      if j == o then (if c % 2 == 1 then b % 16 + 16 * (v % 16) else v % 256)
      else if j == o + 1 then (if c % 2 == 1 then (v / 16) % 256 else b - b % 16 + (v / 256) % 16)
      else b
    case Fat16 => if j == o then v % 256 else if j == o + 1 then (v / 256) % 256 else b
    case Fat32 =>
      if j == o then v % 256 else if j == o + 1 then (v / 256) % 256
      else if j == o + 2 then (v / 0x1_0000) % 256 else if j == o + 3 then v / 0x100_0000 else b
  }

  function Put(kind: Kind, t: seq<Byte>, c: nat, v: U32): (u: seq<Byte>)
    ensures |u| == |t|
  {
    seq(|t|, j requires 0 <= j < |t| => NewByte(kind, c, v, j, t[j]))
  }

  lemma PutGet(kind: Kind, t: seq<Byte>, c: nat, v: U32)
    requires Fits(kind, t, c)
    ensures Raw(kind, Put(kind, t, c, v), c) == v % Range(kind)
  {
    hide Raw, Put, Fits;
    match kind
    case Fat12 => Get12(t, c, v);
    case Fat16 => Get16(t, c, v);
    case Fat32 => Get32(t, c, v);
  }

  lemma Get16(t: seq<Byte>, c: nat, v: U32)
    requires Fits(Fat16, t, c)
    ensures Raw(Fat16, Put(Fat16, t, c, v), c) == v % 0x1_0000
  {
    var u, o := Put(Fat16, t, c, v), 2 * c;
    assert u[o] == v % 256 && u[o + 1] == (v / 256) % 256;
    FourBytes(v);
  }

  lemma Get12(t: seq<Byte>, c: nat, v: U32)
    requires Fits(Fat12, t, c)
    ensures Raw(Fat12, Put(Fat12, t, c, v), c) == v % 0x1000
  {
    var o := c + c / 2;
    if c % 2 == 1 { Odd(t[o], v); } else { Even(t[o + 1], v); }
  }

  lemma Get32(t: seq<Byte>, c: nat, v: U32)
    requires Fits(Fat32, t, c)
    ensures Raw(Fat32, Put(Fat32, t, c, v), c) == v % 0x1000_0000
  {
    var u, o := Put(Fat32, t, c, v), 4 * c;
    assert u[o] == v % 256 && u[o + 1] == (v / 256) % 256 && u[o + 2] == (v / 0x1_0000) % 256
           && u[o + 3] == v / 0x100_0000;
    FourBytes(v);
  }

  lemma Odd(b: Byte, v: U32)
    ensures (b % 16 + 16 * (v % 16) + 256 * ((v / 16) % 256)) / 16 == v % 0x1000
  {}

  lemma Even(b: Byte, v: U32)
    ensures (v % 256 + 256 * (b - b % 16 + (v / 256) % 16)) % 0x1000 == v % 0x1000
  {
    var g := b / 16;
    assert v % 256 + 256 * (b - b % 16 + (v / 256) % 16) == 0x1000 * g + (v % 256 + 256 * ((v / 256) % 16));
    assert v % 0x1000 == v % 256 + 256 * ((v / 256) % 16);
  }

  /** No other entry changes, not even a FAT12 neighbour in the shared byte. */
  lemma PutFrame(kind: Kind, t: seq<Byte>, c: nat, v: U32, d: nat)
    requires Fits(kind, t, c) && Fits(kind, t, d) && c != d
    ensures Raw(kind, Put(kind, t, c, v), d) == Raw(kind, t, d)
  {
    match kind
    case Fat12 => Frame12(t, c, v, d);
    case Fat16 =>
    case Fat32 =>
  }

  lemma Frame12(t: seq<Byte>, c: nat, v: U32, d: nat)
    requires Fits(Fat12, t, c) && Fits(Fat12, t, d) && c != d
    ensures Raw(Fat12, Put(Fat12, t, c, v), d) == Raw(Fat12, t, d)
  {
    var u, o := Put(Fat12, t, c, v), d + d / 2;
    if d == c + 1 && c % 2 == 0 {
      HighHalf(t[o], t[o + 1], v);
    } else if c == d + 1 && d % 2 == 0 {
      LowHalf(t[o], t[o + 1], v);
    } else {
      assert u[o] == t[o] && u[o + 1] == t[o + 1];
    }
  }

  lemma HighHalf(b: Byte, e: Byte, v: U32)
    ensures (b - b % 16 + (v / 256) % 16 + 256 * e) / 16 == (b + 256 * e) / 16
  {}

  lemma LowHalf(b: Byte, e: Byte, v: U32)
    ensures (b + 256 * (e % 16 + 16 * (v % 16))) % 0x1000 == (b + 256 * e) % 0x1000
  {}

  // ------------------------------------------------------------ links

  const OUT_OF_RANGE: U32 := 0x0FFF_FFFF

  predicate IsEoc(kind: Kind, v: U32) {
    match kind
    case Fat12 => v >= 0xFF8
    case Fat16 => v >= 0xFFF8
    case Fat32 => v >= 0x0FFF_FFF8
  }

  /** FAT12 end markers are widened to 32 bits. */
  function Widen(kind: Kind, raw: U32): U32
    requires raw < Range(kind)
  {
    if kind.Fat12? && raw >= 0xFF8 then raw + 0xFFFF_F000 else raw
  }

  /** A table with room for the entries below `max`. */
  ghost predicate Roomy(kind: Kind, t: seq<Byte>, max: nat) { forall c :: 2 <= c < max ==> Fits(kind, t, c) }

  /** What `get_fat_entry` answers. */
  function Next(kind: Kind, t: seq<Byte>, max: nat, c: nat): U32
    requires 2 <= c < max ==> Fits(kind, t, c)
  {
    if 2 <= c < max then Widen(kind, Raw(kind, t, c)) else OUT_OF_RANGE
  }

  /** The width of a volume with `count` clusters, which are numbered from 2. */
  function KindOf(count: nat): Kind { if count < 4085 then Fat12 else if count < 65525 then Fat16 else Fat32 }

  /** Which entries end a chain: the last eight values of each width, and those out of range. */
  lemma EntryEnds(kind: Kind, t: seq<Byte>, max: nat, c: nat)
    requires 2 <= c < max ==> Fits(kind, t, c)
    ensures !(2 <= c < max) ==> IsEoc(kind, Next(kind, t, max, c))
    ensures 2 <= c < max && kind == Fat12 ==>
              (IsEoc(kind, Next(kind, t, max, c)) <==> 0xFF8 <= Raw(kind, t, c) <= 0xFFF)
    ensures 2 <= c < max && kind == Fat16 ==>
              (IsEoc(kind, Next(kind, t, max, c)) <==> 0xFFF8 <= Raw(kind, t, c) <= 0xFFFF)
    ensures 2 <= c < max && kind == Fat32 ==>
              (IsEoc(kind, Next(kind, t, max, c)) <==> 0xFFF_FFF8 <= Raw(kind, t, c) <= 0xFFF_FFFF)
  {}

  /** An entry that holds a cluster number leads to that cluster and ends no chain, on every
      volume but those of more clusters than a 28-bit entry can name. */
  lemma LinksOn(count: nat, t: seq<Byte>, c: nat, d: nat)
    requires 2 <= c < count + 2 && Fits(KindOf(count), t, c) && 2 <= d < count + 2 && Raw(KindOf(count), t, c) == d
    ensures Next(KindOf(count), t, count + 2, c) == d
    ensures IsEoc(KindOf(count), d) <==> d >= 0xFFF_FFF8
    ensures count <= 0xFFF_FFF6 ==> !IsEoc(KindOf(count), d)
  {
    hide Raw;
  }

  // ------------------------------------------------------------ following a chain

  /** In the table as it is, the walk from `s` stands on the in-range cluster `c` after
      `k` links. */
  ghost predicate Visits(kind: Kind, t: seq<Byte>, max: nat, s: nat, k: nat, c: nat)
    requires Roomy(kind, t, max)
    decreases k
  {
    && 2 <= s < max
    && if k == 0 then s == c
       else !IsEoc(kind, Next(kind, t, max, s)) && Visits(kind, t, max, Next(kind, t, max, s), k - 1, c)
  }

  ghost predicate Reaches(kind: Kind, t: seq<Byte>, max: nat, s: nat, c: nat)
    requires Roomy(kind, t, max)
  {
    exists k: nat :: Visits(kind, t, max, s, k, c)
  }

  lemma ReachesStep(kind: Kind, t: seq<Byte>, max: nat, s: nat, c: nat)
    requires Roomy(kind, t, max)
    ensures var n := Next(kind, t, max, s);
            Reaches(kind, t, max, s, c)
            <==> 2 <= s < max && (c == s || (!IsEoc(kind, n) && Reaches(kind, t, max, n, c)))
  {
    var n := Next(kind, t, max, s);
    if k: nat :| Visits(kind, t, max, s, k, c) {
      if k > 0 { assert Visits(kind, t, max, n, k - 1, c); }
    }
    if 2 <= s < max && c == s { assert Visits(kind, t, max, s, 0, c); }
    if 2 <= s < max && !IsEoc(kind, n) && Reaches(kind, t, max, n, c) {
      var k: nat :| Visits(kind, t, max, n, k, c);
      assert Visits(kind, t, max, s, k + 1, c);
    }
  }

  /** A set of clusters that the links do not leave. */
  ghost predicate Closed(kind: Kind, t: seq<Byte>, max: nat, d: set<nat>)
    requires Roomy(kind, t, max)
  {
    forall s: nat :: s in d ==> var n := Next(kind, t, max, s); !IsEoc(kind, n) && 2 <= n < max ==> n in d
  }

  lemma {:induction false} ClosedHolds(kind: Kind, t: seq<Byte>, max: nat, d: set<nat>, s: nat, k: nat, c: nat)
    requires Roomy(kind, t, max) && Closed(kind, t, max, d) && s in d && Visits(kind, t, max, s, k, c)
    ensures c in d
    decreases k
  {
    if k > 0 { ClosedHolds(kind, t, max, d, Next(kind, t, max, s), k - 1, c); }
  }

  /** The clusters reached from `first` are those in `d` and those reached from `start`. */
  ghost predicate Covers(kind: Kind, t: seq<Byte>, max: nat, first: nat, d: set<nat>, start: nat)
    requires Roomy(kind, t, max)
  {
    forall c: nat :: Reaches(kind, t, max, first, c) <==> c in d || Reaches(kind, t, max, start, c)
  }

  /** From a cluster in `d` the links lead into `d` or to `start`. */
  ghost predicate LinksTo(kind: Kind, t: seq<Byte>, max: nat, d: set<nat>, start: nat)
    requires Roomy(kind, t, max)
  {
    forall s: nat :: s in d ==> var n := Next(kind, t, max, s); !IsEoc(kind, n) && 2 <= n < max ==> n in d || n == start
  }

  /** Back on a cluster already in `d`: there is nothing left to reach. */
  lemma TurnSeen(kind: Kind, t: seq<Byte>, max: nat, first: nat, d: set<nat>, start: nat)
    requires Roomy(kind, t, max) && Covers(kind, t, max, first, d, start) && LinksTo(kind, t, max, d, start)
    requires start in d
    ensures Covers(kind, t, max, first, d, 0) && LinksTo(kind, t, max, d, 0)
  {
    forall c: nat ensures Reaches(kind, t, max, first, c) <==> c in d || Reaches(kind, t, max, 0, c) {
      ReachesStep(kind, t, max, 0, c);
      if Reaches(kind, t, max, start, c) {
        var k: nat :| Visits(kind, t, max, start, k, c);
        ClosedHolds(kind, t, max, d, start, k, c);
      }
    }
  }

  /** On a new cluster: it joins `d`, and the walk goes on from its successor. */
  lemma TurnNew(kind: Kind, t: seq<Byte>, max: nat, first: nat, d: set<nat>, start: nat)
    requires Roomy(kind, t, max) && Covers(kind, t, max, first, d, start) && LinksTo(kind, t, max, d, start)
    requires 2 <= start < max
    ensures var n, e := Next(kind, t, max, start), d + {start};
            if IsEoc(kind, n) then Covers(kind, t, max, first, e, 0)
            else Covers(kind, t, max, first, e, n) && LinksTo(kind, t, max, e, n)
  {
    hide Reaches;
    var n, e := Next(kind, t, max, start), d + {start};
    forall c: nat
      ensures Reaches(kind, t, max, first, c) <==> c in e || (!IsEoc(kind, n) && Reaches(kind, t, max, n, c))
      ensures !Reaches(kind, t, max, 0, c)
    {
      ReachesStep(kind, t, max, start, c);
      ReachesStep(kind, t, max, 0, c);
    }
  }

  /** Outside the table: nothing is reached from there. */
  lemma TurnOut(kind: Kind, t: seq<Byte>, max: nat, first: nat, d: set<nat>, start: nat)
    requires Roomy(kind, t, max) && Covers(kind, t, max, first, d, start) && !(2 <= start < max)
    ensures forall c: nat :: c in d <==> Reaches(kind, t, max, first, c)
  {
    hide Reaches;
    forall c: nat ensures c in d <==> Reaches(kind, t, max, first, c) { ReachesStep(kind, t, max, start, c); }
  }

  // ------------------------------------------------------------ the volume

  function Base(fatStart: nat, sectorsPerFat: nat, i: nat): nat { (fatStart + i * sectorsPerFat) * 512 }

  lemma BasesApart(fatStart: nat, sectorsPerFat: nat, i: nat, j: nat)
    requires i < j
    ensures Base(fatStart, sectorsPerFat, i) + sectorsPerFat * 512 <= Base(fatStart, sectorsPerFat, j)
  {
    assert j * sectorsPerFat == i * sectorsPerFat + sectorsPerFat + (j - i - 1) * sectorsPerFat;
    assert (j - i - 1) * sectorsPerFat >= 0;
  }

  lemma PutSlice(kind: Kind, was: seq<Byte>, now: seq<Byte>, at: nat, size: nat, c: nat, v: U32)
    requires |now| == |was| && at + size <= |was|
    requires forall j :: at <= j < at + size ==> now[j] == NewByte(kind, c, v, j - at, was[j])
    ensures now[at..at + size] == Put(kind, was[at..at + size], c, v)
  {
    hide NewByte;
  }

  lemma SameSlice(was: seq<Byte>, now: seq<Byte>, at: nat, size: nat)
    requires |now| == |was| && at + size <= |was| && forall j :: at <= j < at + size ==> now[j] == was[j]
    ensures now[at..at + size] == was[at..at + size]
  {}

  lemma OtherSlices(was: seq<Byte>, now: seq<Byte>, fatStart: nat, sectorsPerFat: nat, n: nat, i: nat)
    requires |now| == |was| && i < n
    requires forall k :: 0 <= k < n ==> Base(fatStart, sectorsPerFat, k) + sectorsPerFat * 512 <= |was|
    requires var at := Base(fatStart, sectorsPerFat, i);
             forall j :: 0 <= j < |was| && !(at <= j < at + sectorsPerFat * 512) ==> now[j] == was[j]
    ensures forall k :: 0 <= k < n && k != i ==>
              var at := Base(fatStart, sectorsPerFat, k);
              now[at..at + sectorsPerFat * 512] == was[at..at + sectorsPerFat * 512]
  {
    hide Base;
    var size := sectorsPerFat * 512;
    forall k | 0 <= k < n && k != i
      ensures var at := Base(fatStart, sectorsPerFat, k); now[at..at + size] == was[at..at + size]
    {
      if k < i { BasesApart(fatStart, sectorsPerFat, k, i); } else { BasesApart(fatStart, sectorsPerFat, i, k); }
      SameSlice(was, now, Base(fatStart, sectorsPerFat, k), size);
    }
  }

  function Upto(n: nat): set<nat> { if n == 0 then {} else Upto(n - 1) + {n - 1} }

  lemma InUpto(n: nat, c: nat)
    requires c < n
    ensures c in Upto(n)
  {}

  // ------------------------------------------------- a volume with no copy at all

  /** Where `free_cluster_chain` stands after `n` turns when `set_fat_entry` has no copy to
      write to, so that the table stays as it is; below 2 once it has ended. */
  function Visit(kind: Kind, t: seq<Byte>, max: nat, first: nat, n: nat): nat
    requires Roomy(kind, t, max)
  {
    if n == 0 then first
    else
      var s := Visit(kind, t, max, first, n - 1);
      if s < 2 || IsEoc(kind, Next(kind, t, max, s)) then 0 else Next(kind, t, max, s)
  }

  lemma {:induction false} VisitBefore(kind: Kind, t: seq<Byte>, max: nat, first: nat, n: nat, m: nat)
    requires Roomy(kind, t, max) && n <= m && Visit(kind, t, max, first, m) >= 2
    ensures Visit(kind, t, max, first, n) >= 2
    decreases m
  {
    if n < m { VisitBefore(kind, t, max, first, n, m - 1); }
  }

  lemma {:induction false} VisitAgain(kind: Kind, t: seq<Byte>, max: nat, first: nat, i: nat, j: nat, k: nat)
    requires Roomy(kind, t, max) && Visit(kind, t, max, first, i) == Visit(kind, t, max, first, j)
    ensures Visit(kind, t, max, first, i + k) == Visit(kind, t, max, first, j + k)
  {
    hide Raw, Widen, Roomy, IsEoc;
    if k > 0 { VisitAgain(kind, t, max, first, i, j, k - 1); }
  }

  /** Two visits of one cluster, and the walk never ends. */
  lemma {:induction false} CycleNeverEnds(kind: Kind, t: seq<Byte>, max: nat, first: nat, i: nat, j: nat, n: nat)
    requires Roomy(kind, t, max) && i < j && Visit(kind, t, max, first, i) == Visit(kind, t, max, first, j) >= 2
    ensures Visit(kind, t, max, first, n) >= 2
    decreases n
  {
    if n <= j {
      VisitBefore(kind, t, max, first, n, j);
    } else {
      CycleNeverEnds(kind, t, max, first, i, j, n - (j - i));
      VisitAgain(kind, t, max, first, i, j, n - j);
    }
  }

  /** No cluster twice in the first `n` turns. */
  ghost predicate Fresh(kind: Kind, t: seq<Byte>, max: nat, first: nat, n: nat)
    requires Roomy(kind, t, max)
  {
    forall i, j :: 0 <= i < j < n ==> Visit(kind, t, max, first, i) != Visit(kind, t, max, first, j)
  }

  ghost function Visited(kind: Kind, t: seq<Byte>, max: nat, first: nat, n: nat): set<nat>
    requires Roomy(kind, t, max)
  {
    if n == 0 then {} else Visited(kind, t, max, first, n - 1) + {Visit(kind, t, max, first, n - 1)}
  }

  lemma VisitInRange(kind: Kind, t: seq<Byte>, max: nat, first: nat, n: nat)
    requires Roomy(kind, t, max) && Visit(kind, t, max, first, n + 1) >= 2
    ensures 2 <= Visit(kind, t, max, first, n) < max
  {
    hide Raw, Widen, Roomy;
  }

  /** Without a repetition every turn meets a new cluster in range. */
  lemma {:induction false} VisitedMany(kind: Kind, t: seq<Byte>, max: nat, first: nat, n: nat)
    requires Roomy(kind, t, max) && Fresh(kind, t, max, first, n) && Visit(kind, t, max, first, n) >= 2
    ensures |Visited(kind, t, max, first, n)| == n && Visited(kind, t, max, first, n) <= Upto(max)
    ensures forall c :: c in Visited(kind, t, max, first, n) ==> Met(kind, t, max, first, n, c)
  {
    hide Visit, Upto, Roomy;
    if n > 0 {
      var v := Visit(kind, t, max, first, n - 1);
      VisitInRange(kind, t, max, first, n - 1);
      VisitedMany(kind, t, max, first, n - 1);
      InUpto(max, v);
      assert !Met(kind, t, max, first, n - 1, v);
    }
  }

  ghost predicate Met(kind: Kind, t: seq<Byte>, max: nat, first: nat, n: nat, c: nat)
    requires Roomy(kind, t, max)
  {
    exists i: nat :: i < n && Visit(kind, t, max, first, i) == c
  }

  lemma {:induction false} UptoSize(n: nat)
    ensures |Upto(n)| == n && forall c :: c in Upto(n) ==> c < n
  {
    if n > 0 { UptoSize(n - 1); }
  }

  lemma SubsetSize(a: set<nat>, b: set<nat>)
    requires a <= b
    ensures |a| <= |b|
  {
    assert b == a + (b - a);
  }

  ghost predicate Ends(kind: Kind, t: seq<Byte>, max: nat, first: nat)
    requires Roomy(kind, t, max)
  {
    exists n: nat :: Visit(kind, t, max, first, n) < 2
  }

  /** The chain comes back to a cluster. */
  ghost predicate Cyclic(kind: Kind, t: seq<Byte>, max: nat, first: nat)
    requires Roomy(kind, t, max)
  {
    exists i: nat, j: nat :: i < j && Visit(kind, t, max, first, i) == Visit(kind, t, max, first, j) >= 2
  }

  /** With no copy of the table the loop ends exactly when the chain meets no cluster twice. */
  lemma EndsIff(kind: Kind, t: seq<Byte>, max: nat, first: nat)
    requires Roomy(kind, t, max)
    ensures Ends(kind, t, max, first) <==> !Cyclic(kind, t, max, first)
  {
    hide Visit, Roomy, Upto, Visited;
    if Cyclic(kind, t, max, first) {
      var i: nat, j: nat :| i < j && Visit(kind, t, max, first, i) == Visit(kind, t, max, first, j) >= 2;
      forall n: nat ensures Visit(kind, t, max, first, n) >= 2 { CycleNeverEnds(kind, t, max, first, i, j, n); }
    } else if !Ends(kind, t, max, first) {
      assert Visit(kind, t, max, first, max + 1) >= 2;
      forall i, j | 0 <= i < j < max + 1 ensures Visit(kind, t, max, first, i) != Visit(kind, t, max, first, j) {
        assert Visit(kind, t, max, first, i) >= 2;
      }
      VisitedMany(kind, t, max, first, max + 1);
      UptoSize(max);
      SubsetSize(Visited(kind, t, max, first, max + 1), Upto(max));
    }
  }

  /** A cluster that links to itself is such a chain. */
  lemma SelfLink(kind: Kind, t: seq<Byte>, max: nat, c: nat)
    requires Roomy(kind, t, max) && 2 <= c < max && Next(kind, t, max, c) == c && !IsEoc(kind, Next(kind, t, max, c))
    ensures Cyclic(kind, t, max, c) && !Ends(kind, t, max, c)
  {
    assert Visit(kind, t, max, c, 0) == Visit(kind, t, max, c, 1) == c;
    EndsIff(kind, t, max, c);
  }

  class Volume {
    const kind: Kind
    const maxCluster: nat
    const fatStart: nat
    const sectorsPerFat: nat
    const numFats: nat
    const image: array<Byte>

    ghost function At(i: nat): nat { Base(fatStart, sectorsPerFat, i) }

    ghost function Size(): nat { sectorsPerFat * 512 }

    ghost predicate Valid() {
      && numFats > 0 && At(numFats) <= image.Length
      && (forall i :: 0 <= i < numFats ==> At(i) + Size() <= At(numFats))
      && (forall c :: 2 <= c < maxCluster ==> Offset(kind, c) + Width(kind) <= Size())
    }

    ghost function CopyIn(img: seq<Byte>, i: nat): (t: seq<Byte>)
      requires Valid() && i < numFats && |img| == image.Length
      ensures |t| == Size()
    {
      img[At(i)..At(i) + Size()]
    }

    /** The `i`-th copy of the table. */
    ghost function Copy(i: nat): (t: seq<Byte>)
      requires Valid() && i < numFats
      reads image
      ensures |t| == Size() && Roomy(kind, t, maxCluster)
    {
      CopyIn(image[..], i)
    }

    ghost predicate InRange(c: nat) { 2 <= c < maxCluster }

    /** `get_fat_entry`: the first copy is the one that is read. */
    method GetEntry(c: nat) returns (v: U32)
      requires Valid()
      ensures v == Next(kind, Copy(0), maxCluster, c)
    {
      if c < 2 || c >= maxCluster { return 0x0FFF_FFFF; }
      var off := Offset(kind, c);
      assert At(0) == fatStart * 512 && At(0) + Size() <= At(numFats) && off + Width(kind) <= Size();
      hide Base, Offset;
      var o := fatStart * 512 + off;
      ghost var t := Copy(0);
      assert t[off] == image[o] && t[off + 1] == image[o + 1];
      var lo: int, hi: int := image[o], image[o + 1];
      match kind
      case Fat12 =>
        var e := if c % 2 == 1 then (lo + 256 * hi) / 16 else (lo + 256 * hi) % 0x1000;
        v := if e >= 0xFF8 then e + 0xFFFF_F000 else e;
      case Fat16 =>
        v := lo + 256 * hi;
      case Fat32 =>
        assert t[off + 2] == image[o + 2] && t[off + 3] == image[o + 3];
        var lo2: int, hi2: int := image[o + 2], image[o + 3];
        v := (lo + 256 * hi + 0x1_0000 * lo2 + 0x100_0000 * hi2) % 0x1000_0000;
    }

    /** One pass of the loop in `set_fat_entry`. */
    method SetIn(fat: nat, c: nat, v: U32)
      requires fat + Size() <= image.Length && Offset(kind, c) + Width(kind) <= Size()
      modifies image
      ensures forall j :: 0 <= j < image.Length ==>
                image[j] == if fat <= j < fat + Size() then NewByte(kind, c, v, j - fat, old(image[j]))
                  else old(image[j])
    {
      var o := fat + Offset(kind, c);
      if kind.Fat12? {
        if c % 2 == 1 {
          WriteTwo(o, image[o] % 16 + 16 * (v % 16), (v / 16) % 256);
        } else {
          WriteTwo(o, v % 256, image[o + 1] - image[o + 1] % 16 + (v / 256) % 16);
        }
      } else {
        WriteTwo(o, v % 256, (v / 256) % 256);
        if kind.Fat32? { WriteTwo(o + 2, (v / 0x1_0000) % 256, v / 0x100_0000); }
      }
    }

    method WriteTwo(o: nat, lo: Byte, hi: Byte)
      requires o + 2 <= image.Length
      modifies image
      ensures forall j :: 0 <= j < image.Length ==>
                image[j] == if j == o then lo else if j == o + 1 then hi else old(image[j])
    {
      image[o] := lo;
      image[o + 1] := hi;
    }

    /** The store into the `i`-th copy leaves the other copies alone. */
    method SetCopy(i: nat, c: nat, v: U32)
      requires Valid() && i < numFats && InRange(c)
      modifies image
      ensures Copy(i) == Put(kind, old(Copy(i)), c, v)
      ensures forall k :: 0 <= k < numFats && k != i ==> Copy(k) == old(Copy(k))
      ensures Outside(old(image[..]), image[..])
    {
      hide NewByte, Put, Offset, Roomy, CopyIn, Base;
      assert At(i) + Size() <= At(numFats) && Offset(kind, c) + Width(kind) <= Size();
      Starts(i);
      SetIn((fatStart + i * sectorsPerFat) * 512, c, v);
      AfterSet(old(image[..]), image[..], i, c, v);
    }

    lemma Starts(i: nat)
      ensures At(i) == (fatStart + i * sectorsPerFat) * 512
    {}

    lemma AfterSet(was: seq<Byte>, now: seq<Byte>, i: nat, c: nat, v: U32)
      requires Valid() && i < numFats && |was| == |now| == image.Length
      requires forall j :: 0 <= j < |was| ==>
                 now[j] == if At(i) <= j < At(i) + Size() then NewByte(kind, c, v, j - At(i), was[j]) else was[j]
      ensures CopyIn(now, i) == Put(kind, CopyIn(was, i), c, v)
      ensures forall k :: 0 <= k < numFats && k != i ==> CopyIn(now, k) == CopyIn(was, k)
      ensures Outside(was, now)
    {
      hide NewByte, Put, Offset, Base;
      assert At(i) + Size() <= At(numFats);
      if i > 0 { BasesApart(fatStart, sectorsPerFat, 0, i); }
      PutSlice(kind, was, now, At(i), Size(), c, v);
      forall k | 0 <= k < numFats ensures Base(fatStart, sectorsPerFat, k) + Size() <= |was| {
        assert At(k) + Size() <= At(numFats);
      }
      OtherSlices(was, now, fatStart, sectorsPerFat, numFats, i);
    }

    /** Nothing before the first copy or behind the last one differs. */
    ghost predicate Outside(was: seq<Byte>, now: seq<Byte>)
    {
      |was| == |now| && forall j :: 0 <= j < |was| && !(At(0) <= j < At(numFats)) ==> now[j] == was[j]
    }

    /** `set_fat_entry`: every copy gets the value, and nothing else changes. */
    method SetEntry(c: nat, v: U32)
      requires Valid()
      modifies image
      ensures forall i :: 0 <= i < numFats ==>
                Copy(i) == if InRange(c) then Put(kind, old(Copy(i)), c, v) else old(Copy(i))
      ensures Outside(old(image[..]), image[..])
    {
      hide Put;
      if c < 2 || c >= maxCluster { return; }
      for i := 0 to numFats
        invariant forall k :: 0 <= k < i ==> Copy(k) == Put(kind, old(Copy(k)), c, v)
        invariant forall k :: i <= k < numFats ==> Copy(k) == old(Copy(k))
        invariant Outside(old(image[..]), image[..])
      {
        SetCopy(i, c, v);
      }
    }

    /** Storing then loading an entry: what comes back, and that no other entry of any
        copy changes. */
    method StoreThenLoad(c: nat, v: U32) returns (w: U32)
      requires Valid() && InRange(c)
      modifies image
      ensures w == Widen(kind, v % Range(kind))
      ensures forall i, d :: 0 <= i < numFats && InRange(d) && d != c ==>
                Raw(kind, Copy(i), d) == Raw(kind, old(Copy(i)), d)
    {
      hide Put, Raw;
      SetEntry(c, v);
      PutGet(kind, old(Copy(0)), c, v);
      forall i, d | 0 <= i < numFats && InRange(d) && d != c
        ensures Raw(kind, Copy(i), d) == Raw(kind, old(Copy(i)), d)
      {
        PutFrame(kind, old(Copy(i)), c, v, d);
      }
      w := GetEntry(c);
    }

    /** The entries that a free changes: those in `d` are zero, the rest as in `t`. */
    ghost predicate Cleared(t: seq<Byte>, u: seq<Byte>, d: set<nat>)
      requires Valid() && |t| == Size() && |u| == Size()
    {
      forall c :: InRange(c) ==> Raw(kind, u, c) == if c in d then 0 else Raw(kind, t, c)
    }

    lemma ClearOne(t: seq<Byte>, u: seq<Byte>, d: set<nat>, s: nat)
      requires Valid() && |t| == Size() && |u| == Size() && Cleared(t, u, d) && InRange(s)
      ensures Cleared(t, Put(kind, u, s, 0), d + {s})
    {
      hide Put, Raw;
      PutGet(kind, u, s, 0);
      forall c | InRange(c) ensures Raw(kind, Put(kind, u, s, 0), c) == if c in d + {s} then 0 else Raw(kind, t, c) {
        if c != s { PutFrame(kind, u, s, 0, c); }
      }
    }

    /** Reads the link of `s` and clears its entry. `was` are the copies at the start of
        the walk, `d` the clusters cleared since. */
    method Detach(s: nat, ghost was: seq<seq<Byte>>, ghost d: set<nat>) returns (next: U32)
      requires Valid() && |was| == numFats && forall i :: 0 <= i < numFats ==>
                 |was[i]| == Size() && Cleared(was[i], Copy(i), d)
      modifies image
      ensures next == if InRange(s) && s in d then 0 else Next(kind, was[0], maxCluster, s)
      ensures forall i :: 0 <= i < numFats ==> Cleared(was[i], Copy(i), if InRange(s) then d + {s} else d)
      ensures Outside(old(image[..]), image[..])
    {
      hide Put, Raw, Cleared, Next;
      next := GetEntry(s);
      ReadBack(was[0], Copy(0), d, s);
      if InRange(s) {
        forall i | 0 <= i < numFats ensures Cleared(was[i], Put(kind, Copy(i), s, 0), d + {s}) {
          ClearOne(was[i], Copy(i), d, s);
        }
      }
      SetEntry(s, 0);
    }

    ghost function Copies(): (ts: seq<seq<Byte>>)
      requires Valid()
      reads image
      ensures |ts| == numFats
    {
      seq(numFats, i requires 0 <= i < numFats reads image => Copy(i))
    }

    /** The in-range clusters not yet freed bound the loop. */
    ghost function Left(d: set<nat>): nat { |Upto(maxCluster) - d| }

    lemma LeftLess(d: set<nat>, s: nat)
      requires InRange(s) && s !in d
      ensures Left(d + {s}) < Left(d)
    {
      InUpto(maxCluster, s);
      assert Upto(maxCluster) - d == Upto(maxCluster) - (d + {s}) + {s};
    }

    /** `free_cluster_chain`: terminates on every table, cyclic ones included, and
        zeroes in every copy exactly the in-range clusters that the chain in the first
        copy reaches. */
    method FreeChain(first: nat) returns (ghost freed: set<nat>)
      requires Valid()
      modifies image
      ensures forall c: nat :: c in freed <==> Reaches(kind, old(Copy(0)), maxCluster, first, c)
      ensures forall i :: 0 <= i < numFats ==> Cleared(old(Copy(i)), Copy(i), freed)
      ensures Outside(old(image[..]), image[..])
    {
      hide Raw, Reaches, Cleared, Covers, LinksTo;
      var start: nat := first;
      ghost var was := Copies();
      freed := {};
      ghost var at := start;
      ChainStart(was, first);
      while start >= 2
        invariant forall i :: 0 <= i < numFats ==> Cleared(was[i], Copy(i), freed)
        invariant Covers(kind, was[0], maxCluster, first, freed, start)
        invariant LinksTo(kind, was[0], maxCluster, freed, start) && at == start
        invariant Outside(old(image[..]), image[..])
        decreases Left(freed), start
      {
        ghost var seen := freed;
        var next := Detach(start, was, freed);
        if InRange(start) {
          TurnNew(kind, was[0], maxCluster, first, freed, start);
          if start in freed {
            TurnSeen(kind, was[0], maxCluster, first, freed, start);
          } else {
            LeftLess(freed, start);
          }
          freed := freed + {start};
          assert start in seen ==> freed == seen;
        }
        if IsEoc(kind, next) {
          if InRange(start) { at := 0; }
          break;
        }
        start, at := next, next;
      }
      TurnOut(kind, was[0], maxCluster, first, freed, at);
    }

    lemma ChainStart(was: seq<seq<Byte>>, first: nat)
      requires Valid() && |was| == numFats && forall i :: 0 <= i < numFats ==> |was[i]| == Size()
      ensures Covers(kind, was[0], maxCluster, first, {}, first) && LinksTo(kind, was[0], maxCluster, {}, first)
      ensures forall i :: 0 <= i < numFats ==> Cleared(was[i], was[i], {})
    {}

    /** What the loop reads: a freed cluster ends the chain, another one is as at first. */
    lemma ReadBack(t: seq<Byte>, u: seq<Byte>, d: set<nat>, s: nat)
      requires Valid() && |t| == Size() && |u| == Size() && Cleared(t, u, d)
      ensures Next(kind, u, maxCluster, s) == if InRange(s) && s in d then 0 else Next(kind, t, maxCluster, s)
    {
      hide Raw;
    }
  }
}
