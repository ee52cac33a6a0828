/** Directory blocks of ext2: records chained by their length field. Inserting splits a
    record or fills an empty one, removing merges with the record before. */
module Ext2Dirs {

  import opened Bytes
  type Block = seq<Byte>
  type Name = seq<Byte>

  /** An entry as a walk over the directory sees it. */
  datatype Entry = Entry(name: Name, ino: nat)

  // ------------------------------------------------------------ one record

  function Ino(b: Block, o: nat): nat
    requires o + 8 <= |b|
  {
    b[o] + 0x100 * (b[o + 1] as int) + 0x1_0000 * (b[o + 2] as int) + 0x100_0000 * (b[o + 3] as int)
  }

  function RecLen(b: Block, o: nat): nat
    requires o + 8 <= |b|
  {
    b[o + 4] + 0x100 * (b[o + 5] as int)
  }

  function NameLen(b: Block, o: nat): nat
    requires o + 8 <= |b|
  {
    b[o + 6]
  }

  function NameAt(b: Block, o: nat): (n: Name)
    requires o + 8 <= |b| && o + 8 + NameLen(b, o) <= |b|
    ensures |n| == NameLen(b, o)
  {
    b[o + 8..o + 8 + NameLen(b, o)]
  }

  /** `dirent_min_len`: header and name, rounded up to four bytes. */
  function MinLen(n: nat): (m: nat)
    ensures 8 + n <= m < 8 + n + 4 && m % 4 == 0
  {
    (8 + n + 3) / 4 * 4
  }

  /** A record at `o` that stays in the block and has room for its own name. */
  predicate RecOk(b: Block, o: nat) {
    o + 8 <= |b| && 8 <= RecLen(b, o) && o + RecLen(b, o) <= |b|
    && (Ino(b, o) != 0 ==> MinLen(NameLen(b, o)) <= RecLen(b, o))
  }

  /** From `o` on, records fill the block exactly. */
  predicate Tiled(b: Block, o: nat)
    decreases |b| - o
  {
    o == |b| || (RecOk(b, o) && Tiled(b, o + RecLen(b, o)))
  }

  /** The record at `o`, when it is in use. */
  function Own(b: Block, o: nat): multiset<Entry>
    requires RecOk(b, o)
  {
    if Ino(b, o) == 0 then multiset{} else multiset{Entry(NameAt(b, o), Ino(b, o))}
  }

  /** What a walk from `o` sees. */
  function Seen(b: Block, o: nat): multiset<Entry>
    requires Tiled(b, o)
    decreases |b| - o
  {
    if o == |b| then multiset{} else Own(b, o) + Seen(b, o + RecLen(b, o))
  }

  /** `o` is where a record of the walk from `s` begins, or the end. */
  predicate Stop(b: Block, s: nat, o: nat)
    requires Tiled(b, s)
    decreases |b| - s
  {
    s == o || (s < |b| && Stop(b, s + RecLen(b, s), o))
  }

  // ------------------------------------------------------------ locality

  lemma {:induction false} SameTail(b: Block, c: Block, o: nat)
    requires |b| == |c| && o <= |b| && b[o..] == c[o..] && Tiled(b, o)
    ensures Tiled(c, o) && Seen(c, o) == Seen(b, o)
    decreases |b| - o
  {
    hide RecOk, Own, Ino, NameLen, NameAt, RecLen;
    if o < |b| {
      forall j | o <= j < |b| ensures b[j] == c[j] { assert b[o..][j - o] == c[o..][j - o]; }
      InBlock(b, o);
      var n := o + RecLen(b, o);
      assert b[n..] == c[n..];
      SameRecord(b, c, o);
      SameTail(b, c, n);
    }
  }

  lemma InBlock(b: Block, o: nat)
    requires RecOk(b, o)
    ensures o + 8 <= o + RecLen(b, o) <= |b|
  {}

  lemma SameRecord(b: Block, c: Block, o: nat)
    requires |b| == |c| && RecOk(b, o) && forall j :: o <= j < o + RecLen(b, o) ==> b[j] == c[j]
    ensures RecOk(c, o) && RecLen(c, o) == RecLen(b, o) && Own(c, o) == Own(b, o)
  {
    if Ino(b, o) != 0 { assert NameAt(b, o) == NameAt(c, o); }
  }

  /** A change that starts at a stop of the walk shows only from there on. */
  lemma {:induction false} SamePrefix(b: Block, c: Block, s: nat, o: nat)
    requires |b| == |c| && Tiled(b, s) && Stop(b, s, o) && o <= |b| && Tiled(c, o)
    requires forall j :: s <= j < o ==> b[j] == c[j]
    ensures Tiled(b, o) && Tiled(c, s) && Stop(c, s, o)
    ensures Seen(c, s) + Seen(b, o) == Seen(b, s) + Seen(c, o)
    decreases |b| - s
  {
    if s != o {
      StopBeyond(b, s + RecLen(b, s), o);
      SameRecord(b, c, s);
      var n := s + RecLen(b, s);
      SamePrefix(b, c, n, o);
      Shift(Own(b, s), Seen(c, n), Seen(b, o), Seen(b, n), Seen(c, o));
    }
  }

  lemma Shift(x: multiset<Entry>, p: multiset<Entry>, q: multiset<Entry>, r: multiset<Entry>, t: multiset<Entry>)
    requires p + q == r + t
    ensures (x + p) + q == (x + r) + t
  {
    assert (x + p) + q == x + (p + q);
    assert (x + r) + t == x + (r + t);
  }

  /** An entry gained behind a stop is gained by the whole walk; read backwards, one
      lost there is lost. */
  lemma Lift(b: Block, c: Block, s: nat, o: nat, e: Entry)
    requires |b| == |c| && Tiled(b, s) && s <= |b| && Stop(b, s, o) && Tiled(b, o) && Tiled(c, o) && o <= |b|
    requires forall j :: s <= j < o ==> b[j] == c[j]
    ensures Tiled(c, s) && Stop(c, s, o)
    ensures Seen(c, o) == Seen(b, o) + multiset{e} ==> Seen(c, s) == Seen(b, s) + multiset{e}
    ensures Seen(b, o) == Seen(c, o) + multiset{e} ==> Seen(b, s) == Seen(c, s) + multiset{e}
  {
    SamePrefix(b, c, s, o);
    hide Tiled, Seen, Stop;
    Cancel(Seen(c, s), Seen(b, o), Seen(b, s), Seen(c, o), multiset{e});
    Cancel(Seen(b, s), Seen(c, o), Seen(c, s), Seen(b, o), multiset{e});
  }

  lemma Cancel(p: multiset<Entry>, q: multiset<Entry>, r: multiset<Entry>, t: multiset<Entry>, x: multiset<Entry>)
    requires p + q == r + t
    ensures t == q + x ==> p == r + x
  {
    if t == q + x {
      forall k ensures p[k] == (r + x)[k] {
        assert (p + q)[k] == (r + t)[k];
      }
    }
  }

  lemma {:induction false} StopBeyond(b: Block, s: nat, o: nat)
    requires Tiled(b, s) && s <= |b| && Stop(b, s, o)
    ensures s <= o <= |b| && Tiled(b, o)
    decreases |b| - s
  {
    if s != o { StopBeyond(b, s + RecLen(b, s), o); }
  }

  lemma {:induction false} StopNext(b: Block, s: nat, o: nat)
    requires Tiled(b, s) && s <= |b| && Stop(b, s, o) && o < |b|
    ensures Tiled(b, o) && Stop(b, s, o + RecLen(b, o))
    decreases |b| - s
  {
    if s != o {
      StopBeyond(b, s + RecLen(b, s), o);
      StopNext(b, s + RecLen(b, s), o);
    }
  }

  // ------------------------------------------------------------ the three edits

  /** An entry written at `o` with record length `len`. */
  predicate Written(c: Block, o: nat, len: nat, e: Entry) {
    o + 8 + |e.name| <= |c| && Ino(c, o) == e.ino && RecLen(c, o) == len && NameLen(c, o) == |e.name|
      && NameAt(c, o) == e.name
  }

  lemma Head(b: Block, o: nat)
    requires Tiled(b, o) && o < |b|
    ensures RecOk(b, o) && Tiled(b, o + RecLen(b, o)) && Seen(b, o) == Own(b, o) + Seen(b, o + RecLen(b, o))
  {}

  lemma Cons(b: Block, o: nat)
    requires o < |b| && RecOk(b, o) && Tiled(b, o + RecLen(b, o))
    ensures Tiled(b, o) && Seen(b, o) == Own(b, o) + Seen(b, o + RecLen(b, o))
  {}

  lemma OwnWritten(c: Block, o: nat, len: nat, e: Entry)
    requires Written(c, o, len, e) && o + len <= |c| && MinLen(|e.name|) <= len && e.ino != 0
    ensures RecOk(c, o) && Own(c, o) == multiset{e}
  {}

  /** An unused record takes the entry. */
  lemma FillHere(b: Block, c: Block, o: nat, e: Entry)
    requires |b| == |c| && o < |b| && Tiled(b, o) && Ino(b, o) == 0 && MinLen(|e.name|) <= RecLen(b, o) && e.ino != 0
    requires Written(c, o, RecLen(b, o), e) && b[o + RecLen(b, o)..] == c[o + RecLen(b, o)..]
    ensures Tiled(c, o) && Seen(c, o) == Seen(b, o) + multiset{e}
  {
    hide Ino, RecLen, NameLen, NameAt, MinLen, Tiled, Seen;
    Head(b, o);
    OwnWritten(c, o, RecLen(b, o), e);
    SameTail(b, c, o + RecLen(b, o));
    Cons(c, o);
  }

  /** A used record gives its unused tail, from `o + used` on, to the entry. */
  lemma SplitHere(b: Block, c: Block, o: nat, used: nat, e: Entry)
    requires |b| == |c| && o < |b| && Tiled(b, o) && Ino(b, o) != 0 && used == MinLen(NameLen(b, o)) && e.ino != 0
    requires used + MinLen(|e.name|) <= RecLen(b, o) && Written(c, o, used, Entry(NameAt(b, o), Ino(b, o)))
    requires Written(c, o + used, RecLen(b, o) - used, e) && b[o + RecLen(b, o)..] == c[o + RecLen(b, o)..]
    ensures Tiled(c, o) && Seen(c, o) == Seen(b, o) + multiset{e}
  {
    hide Ino, RecLen, NameLen, NameAt, MinLen, Tiled, Seen;
    Head(b, o);
    OwnWritten(c, o, used, Entry(NameAt(b, o), Ino(b, o)));
    OwnWritten(c, o + used, RecLen(b, o) - used, e);
    SameTail(b, c, o + RecLen(b, o));
    Cons(c, o + used);
    Cons(c, o);
    assert Seen(c, o) == Own(b, o) + (multiset{e} + Seen(b, o + RecLen(b, o)));
  }

  /** The first record of a block is switched off. */
  lemma ClearHere(b: Block, c: Block, o: nat)
    requires |b| == |c| && o < |b| && Tiled(b, o) && Ino(b, o) != 0
    requires Ino(c, o) == 0 && RecLen(c, o) == RecLen(b, o) && b[o + RecLen(b, o)..] == c[o + RecLen(b, o)..]
    ensures Tiled(c, o) && Seen(b, o) == Seen(c, o) + multiset{Entry(NameAt(b, o), Ino(b, o))}
  {
    hide Ino, RecLen, NameLen, NameAt, MinLen, Tiled, Seen;
    Head(b, o);
    SameTail(b, c, o + RecLen(b, o));
    Cons(c, o);
  }

  /** The record before swallows the one removed. */
  lemma MergeHere(b: Block, c: Block, p: nat, o: nat)
    requires |b| == |c| && p < |b| && Tiled(b, p) && o == p + RecLen(b, p) && RecOk(b, o) && Ino(b, o) != 0
    requires Ino(c, p) == Ino(b, p) && RecLen(c, p) == RecLen(b, p) + RecLen(b, o) && b[p + 6..] == c[p + 6..]
    ensures Tiled(c, p) && Seen(b, p) == Seen(c, p) + multiset{Entry(NameAt(b, o), Ino(b, o))}
  {
    hide Ino, RecLen, MinLen, Tiled, Seen;
    Head(b, p);
    Head(b, o);
    var n := o + RecLen(b, o);
    assert c[n..] == c[p + 6..][n - (p + 6)..] && b[n..] == b[p + 6..][n - (p + 6)..];
    SameTail(b, c, n);
    SameName(b, c, p);
    hide NameAt, NameLen;
    Cons(c, p);
    assert Seen(b, p) == Own(b, p) + (Own(b, o) + Seen(b, n));
  }

  lemma SameName(b: Block, c: Block, p: nat)
    requires |b| == |c| && p + 8 <= |b| && b[p + 6..] == c[p + 6..]
    ensures NameLen(b, p) == NameLen(c, p)
    ensures p + 8 + NameLen(b, p) <= |b| ==> NameAt(b, p) == NameAt(c, p)
  {
    forall j | p + 6 <= j < |b| ensures b[j] == c[j] { assert b[p + 6..][j - (p + 6)] == c[p + 6..][j - (p + 6)]; }
  }

  // ------------------------------------------------------------ scans

  /** No record from `o` on has `need` bytes to spare. */
  predicate Full(b: Block, o: nat, need: nat)
    requires Tiled(b, o)
    decreases |b| - o
  {
    o < |b| ==> Spare(b, o) < need && Full(b, o + RecLen(b, o), need)
  }

  function Spare(b: Block, o: nat): int
    requires RecOk(b, o)
  {
    RecLen(b, o) - if Ino(b, o) != 0 then MinLen(NameLen(b, o)) else 0
  }

  predicate Matches(b: Block, o: nat, name: Name)
    requires RecOk(b, o)
  {
    Ino(b, o) != 0 && NameAt(b, o) == name
  }

  ghost predicate Names(m: multiset<Entry>, name: Name) { exists e :: e in m && e.name == name }

  lemma MatchesOwn(b: Block, o: nat, name: Name)
    requires RecOk(b, o)
    ensures Matches(b, o, name) <==> Names(Own(b, o), name)
    ensures Matches(b, o, name) ==> Entry(name, Ino(b, o)) in Own(b, o)
  {
    if Matches(b, o, name) { assert Entry(name, Ino(b, o)) in Own(b, o); }
  }

  lemma NamesSum(p: multiset<Entry>, q: multiset<Entry>, name: Name)
    ensures Names(p + q, name) <==> Names(p, name) || Names(q, name)
  {
    if e :| e in p && e.name == name { assert e in p + q; }
    if e :| e in q && e.name == name { assert e in p + q; }
  }

  /** Reading in the image is reading in the block. */
  lemma InSlice(img: seq<Byte>, base: nat, size: nat, o: nat)
    requires base + size <= |img| && o + 8 <= size
    ensures var b := img[base..base + size];
            && Ino(b, o) == Ino(img, base + o) && RecLen(b, o) == RecLen(img, base + o)
               && NameLen(b, o) == NameLen(img, base + o)
            && (o + 8 + NameLen(b, o) <= size ==> NameAt(b, o) == NameAt(img, base + o))
  {
    var b := img[base..base + size];
    var n := NameLen(b, o);
    assert n == NameLen(img, base + o);
    if o + 8 + n <= size {
      var p, q := b[o + 8..o + 8 + n], img[base + o + 8..base + o + 8 + n];
      forall k | 0 <= k < n ensures p[k] == q[k] { assert p[k] == b[o + 8 + k] && q[k] == img[base + o + 8 + k]; }
      assert p == q;
    }
  }

  /** The header but its length, and the name, are as before. */
  lemma SameEntry(b: Block, c: Block, o: nat)
    requires |b| == |c| && RecOk(b, o) && Ino(b, o) != 0
    requires forall j :: o <= j < o + MinLen(NameLen(b, o)) && j != o + 4 && j != o + 5 ==> c[j] == b[j]
    ensures Written(c, o, RecLen(c, o), Entry(NameAt(b, o), Ino(b, o)))
  {
    assert NameAt(c, o) == NameAt(b, o);
  }

  lemma AtStart(b: Block)
    requires Tiled(b, 0)
    ensures Stop(b, 0, 0)
  {}

  lemma FullStep(b: Block, o: nat, need: nat)
    requires Tiled(b, o) && o < |b|
    ensures RecOk(b, o) && Tiled(b, o + RecLen(b, o))
    ensures Full(b, o, need) <==> Spare(b, o) < need && Full(b, o + RecLen(b, o), need)
  {}

  lemma FullEnd(b: Block, need: nat)
    ensures Tiled(b, |b|) && Full(b, |b|, need)
  {}

  /** The record at `o` answers for its part of the walk. */
  lemma NamesStep(b: Block, o: nat, name: Name)
    requires Tiled(b, o) && o < |b|
    ensures RecOk(b, o) && Tiled(b, o + RecLen(b, o))
    ensures Names(Seen(b, o), name) <==> Matches(b, o, name) || Names(Seen(b, o + RecLen(b, o)), name)
    ensures Matches(b, o, name) ==> Entry(name, Ino(b, o)) in Seen(b, o)
  {
    Head(b, o);
    hide Tiled, Seen, Own, Names, Matches, Ino, RecLen, NameLen, NameAt, MinLen;
    MatchesOwn(b, o, name);
    NamesSum(Own(b, o), Seen(b, o + RecLen(b, o)), name);
  }

  lemma {:induction false} SeenFrom(b: Block, s: nat, o: nat, e: Entry)
    requires Tiled(b, s) && s <= |b| && Stop(b, s, o) && Tiled(b, o) && e in Seen(b, o)
    ensures e in Seen(b, s)
    decreases |b| - s
  {
    if s != o { SeenFrom(b, s + RecLen(b, s), o, e); }
  }

  lemma NamesEnd(b: Block, name: Name)
    ensures Tiled(b, |b|) && !Names(Seen(b, |b|), name)
  {}

  lemma NameLenIs(img: seq<Byte>, p: nat)
    requires p + 8 <= |img|
    ensures NameLen(img, p) == img[p + 6]
  {}

  // ------------------------------------------------------- the edits, in bytes

  lemma SplitBlock(b: Block, c: Block, o: nat, e: Entry)
    requires |b| == |c| && Tiled(b, 0) && Stop(b, 0, o) && o < |b| && RecOk(b, o) && Ino(b, o) != 0 && e.ino != 0
    requires var used := MinLen(NameLen(b, o));
             && used + MinLen(|e.name|) <= RecLen(b, o) && RecLen(c, o) == used
             && Written(c, o + used, RecLen(b, o) - used, e)
             && forall j :: 0 <= j < |b| && ((j < o + used && j != o + 4 && j != o + 5) || o + RecLen(b, o) <= j) ==>
                c[j] == b[j]
    ensures Tiled(c, 0) && Seen(c, 0) == Seen(b, 0) + multiset{e}
  {
    hide Tiled, Stop, Seen, Ino, RecLen, NameLen, NameAt, MinLen;
    StopBeyond(b, 0, o);
    SameEntry(b, c, o);
    var n := o + RecLen(b, o);
    assert b[n..] == c[n..];
    SplitHere(b, c, o, MinLen(NameLen(b, o)), e);
    Lift(b, c, 0, o, e);
  }

  lemma FillBlock(b: Block, c: Block, o: nat, e: Entry)
    requires |b| == |c| && Tiled(b, 0) && Stop(b, 0, o) && o < |b| && RecOk(b, o) && Ino(b, o) == 0 && e.ino != 0
    requires MinLen(|e.name|) <= RecLen(b, o) && Written(c, o, RecLen(b, o), e)
    requires forall j :: 0 <= j < |b| && (j < o || o + RecLen(b, o) <= j) ==> c[j] == b[j]
    ensures Tiled(c, 0) && Seen(c, 0) == Seen(b, 0) + multiset{e}
  {
    hide Tiled, Stop, Seen, Ino, RecLen, NameLen, NameAt, MinLen;
    StopBeyond(b, 0, o);
    var n := o + RecLen(b, o);
    assert b[n..] == c[n..];
    FillHere(b, c, o, e);
    Lift(b, c, 0, o, e);
  }

  lemma ClearBlock(b: Block, c: Block, o: nat)
    requires |b| == |c| && Tiled(b, 0) && Stop(b, 0, o) && o < |b| && RecOk(b, o) && Ino(b, o) != 0 && Ino(c, o) == 0
    requires forall j :: 0 <= j < |b| && !(o <= j < o + 4) ==> c[j] == b[j]
    ensures Tiled(c, 0) && Seen(b, 0) == Seen(c, 0) + multiset{Entry(NameAt(b, o), Ino(b, o))}
  {
    assert RecLen(c, o) == RecLen(b, o);
    hide Tiled, Stop, Seen, Ino, RecLen, NameLen, NameAt, MinLen;
    StopBeyond(b, 0, o);
    var n := o + RecLen(b, o);
    assert b[n..] == c[n..];
    ClearHere(b, c, o);
    Lift(b, c, 0, o, Entry(NameAt(b, o), Ino(b, o)));
  }

  lemma MergeBlock(b: Block, c: Block, p: nat, o: nat)
    requires |b| == |c| && Tiled(b, 0) && Stop(b, 0, p) && p < |b| && RecOk(b, p) && o == p + RecLen(b, p)
    requires RecOk(b, o) && Ino(b, o) != 0 && RecLen(c, p) == RecLen(b, p) + RecLen(b, o)
    requires forall j :: 0 <= j < |b| && j != p + 4 && j != p + 5 ==> c[j] == b[j]
    ensures Tiled(c, 0) && Seen(b, 0) == Seen(c, 0) + multiset{Entry(NameAt(b, o), Ino(b, o))}
  {
    assert Ino(c, p) == Ino(b, p);
    hide Tiled, Stop, Seen, Ino, RecLen, NameLen, NameAt, MinLen;
    StopBeyond(b, 0, p);
    assert b[p + 6..] == c[p + 6..];
    MergeHere(b, c, p, o);
    Lift(b, c, 0, p, Entry(NameAt(b, o), Ino(b, o)));
  }

  // ------------------------------------------------------- several blocks

  ghost predicate AllTiled(bs: seq<Block>) { forall i :: 0 <= i < |bs| ==> Tiled(bs[i], 0) }

  /** What a walk over the whole directory sees. */
  ghost function Sum(bs: seq<Block>): multiset<Entry>
    requires AllTiled(bs)
  {
    if bs == [] then multiset{} else Sum(bs[..|bs| - 1]) + Seen(bs[|bs| - 1], 0)
  }

  lemma {:induction false} SumUpdate(bs: seq<Block>, i: nat, c: Block, e: Entry)
    requires AllTiled(bs) && i < |bs| && Tiled(c, 0) && Seen(c, 0) == Seen(bs[i], 0) + multiset{e}
    ensures AllTiled(bs[i := c]) && Sum(bs[i := c]) == Sum(bs) + multiset{e}
  {
    hide Tiled, Seen;
    var n := |bs| - 1;
    if i == n {
      assert bs[i := c][..n] == bs[..n];
      assert Sum(bs[..n]) + (Seen(bs[n], 0) + multiset{e}) == Sum(bs) + multiset{e};
    } else {
      SumUpdate(bs[..n], i, c, e);
      assert bs[i := c][..n] == bs[..n][i := c];
    }
  }

  lemma {:induction false} SumNames(bs: seq<Block>, name: Name)
    requires AllTiled(bs)
    ensures Names(Sum(bs), name) <==> exists i :: 0 <= i < |bs| && Names(Seen(bs[i], 0), name)
  {
    hide Tiled, Seen, Names;
    if bs == [] {
      NoNames(name);
    } else {
      var n := |bs| - 1;
      SumNames(bs[..n], name);
      NamesSum(Sum(bs[..n]), Seen(bs[n], 0), name);
      if i :| 0 <= i < |bs| && Names(Seen(bs[i], 0), name) {
        if i < n { assert Names(Seen(bs[..n][i], 0), name); }
      }
    }
  }

  lemma NoNames(name: Name)
    ensures !Names(multiset{}, name)
  {}

  lemma {:induction false} SumHolds(bs: seq<Block>, i: nat, e: Entry)
    requires AllTiled(bs) && i < |bs| && e in Seen(bs[i], 0)
    ensures e in Sum(bs)
  {
    hide Tiled, Seen;
    if i < |bs| - 1 { SumHolds(bs[..|bs| - 1], i, e); }
  }

  lemma FreshBlock(c: Block, e: Entry)
    requires Written(c, 0, |c|, e) && MinLen(|e.name|) <= |c| && e.ino != 0
    ensures Tiled(c, 0) && Seen(c, 0) == multiset{e}
  {
    OwnWritten(c, 0, |c|, e);
    hide Own, NameAt, NameLen, Ino;
    assert Tiled(c, |c|);
    Cons(c, 0);
  }

  /** The block numbered `n`; a hole is empty. */
  ghost function BlockOf(img: seq<Byte>, size: nat, n: nat): Block
    requires n != 0 ==> n * size + size <= |img|
  {
    if n == 0 then [] else img[n * size..n * size + size]
  }

  ghost predicate Placed(img: seq<Byte>, size: nat, index: seq<nat>) {
    && (forall i :: 0 <= i < |index| && index[i] != 0 ==> index[i] * size + size <= |img|)
    && (forall i, j :: 0 <= i < j < |index| && index[i] != 0 ==> index[i] != index[j])
  }

  ghost function BlocksOf(img: seq<Byte>, size: nat, index: seq<nat>): (bs: seq<Block>)
    requires Placed(img, size, index)
    ensures |bs| == |index|
  {
    seq(|index|, i requires 0 <= i < |index| => BlockOf(img, size, index[i]))
  }

  /** A change inside block `n` leaves every other block alone. */
  lemma OtherBlock(a: seq<Byte>, b: seq<Byte>, size: nat, n: nat, m: nat)
    requires |a| == |b| && n != m && (m != 0 ==> m * size + size <= |a|)
    requires forall j :: 0 <= j < |a| && !(n * size <= j < n * size + size) ==> a[j] == b[j]
    ensures BlockOf(b, size, m) == BlockOf(a, size, m)
  {
    if m < n { Multiple(m, n, size); } else { Multiple(n, m, size); }
  }

  lemma Multiple(m: nat, n: nat, size: nat)
    requires m < n
    ensures m * size + size <= n * size
  {
    assert n * size == m * size + size + (n - m - 1) * size;
    assert (n - m - 1) * size >= 0;
  }

  lemma OneBlock(a: seq<Byte>, b: seq<Byte>, size: nat, index: seq<nat>, i: nat)
    requires |a| == |b| && Placed(a, size, index) && i < |index| && index[i] != 0
    requires var n := index[i]; forall j :: 0 <= j < |a| && !(n * size <= j < n * size + size) ==> a[j] == b[j]
    ensures Placed(b, size, index)
    ensures BlocksOf(b, size, index) == BlocksOf(a, size, index)[i := BlockOf(b, size, index[i])]
  {
    hide BlockOf;
    var p, q := BlocksOf(b, size, index), BlocksOf(a, size, index)[i := BlockOf(b, size, index[i])];
    forall k | 0 <= k < |index| ensures p[k] == q[k] {
      if k != i { OtherBlock(a, b, size, index[i], index[k]); }
    }
    assert p == q;
  }

  /** One block edited: the walk gains or loses what that block gains or loses. */
  lemma Edited(a: seq<Byte>, b: seq<Byte>, size: nat, index: seq<nat>, i: nat, e: Entry)
    requires |a| == |b| && Placed(a, size, index) && AllTiled(BlocksOf(a, size, index)) && i < |index| && index[i] != 0
    requires var n := index[i]; forall j :: 0 <= j < |a| && !(n * size <= j < n * size + size) ==> a[j] == b[j]
    requires Tiled(BlockOf(a, size, index[i]), 0) && Tiled(BlockOf(b, size, index[i]), 0)
    ensures Placed(b, size, index) && AllTiled(BlocksOf(b, size, index))
    ensures Seen(BlockOf(b, size, index[i]), 0) == Seen(BlockOf(a, size, index[i]), 0) + multiset{e} ==>
              Sum(BlocksOf(b, size, index)) == Sum(BlocksOf(a, size, index)) + multiset{e}
    ensures Seen(BlockOf(a, size, index[i]), 0) == Seen(BlockOf(b, size, index[i]), 0) + multiset{e} ==>
              Sum(BlocksOf(a, size, index)) == Sum(BlocksOf(b, size, index)) + multiset{e}
  {
    hide Tiled, Seen, Sum, BlockOf;
    OneBlock(a, b, size, index, i);
    var p, q, x, y := BlocksOf(a, size, index), BlocksOf(b, size, index), BlockOf(a, size, index[i]),
      BlockOf(b, size, index[i]);
    assert p == q[i := x];
    if Seen(y, 0) == Seen(x, 0) + multiset{e} { SumUpdate(p, i, y, e); }
    if Seen(x, 0) == Seen(y, 0) + multiset{e} { SumUpdate(q, i, x, e); }
  }

  /** A block with one entry joins the directory. */
  lemma Grown(a: seq<Byte>, b: seq<Byte>, size: nat, index: seq<nat>, n: nat, e: Entry)
    requires |a| == |b| && Placed(a, size, index) && AllTiled(BlocksOf(a, size, index))
    requires n != 0 && n !in index && n * size + size <= |a|
    requires forall j :: 0 <= j < |a| && !(n * size <= j < n * size + size) ==> a[j] == b[j]
    requires Tiled(BlockOf(b, size, n), 0) && Seen(BlockOf(b, size, n), 0) == multiset{e}
    ensures Placed(b, size, index + [n]) && AllTiled(BlocksOf(b, size, index + [n]))
    ensures Sum(BlocksOf(b, size, index + [n])) == Sum(BlocksOf(a, size, index)) + multiset{e}
  {
    hide Tiled, Seen, BlockOf;
    var p, q := BlocksOf(a, size, index), BlocksOf(b, size, index + [n]);
    forall k | 0 <= k < |index| ensures p[k] == q[k] { OtherBlock(a, b, size, n, index[k]); }
    assert q[..|index|] == p;
  }

  class Directory {
    const blockSize: nat
    const image: array<Byte>
    /** The blocks of the directory in order; 0 stands for a hole. */
    var index: seq<nat>

    ghost function Slice(base: nat): (b: Block)
      requires base + blockSize <= image.Length
      reads image
      ensures |b| == blockSize
    {
      image[..][base..base + blockSize]
    }

    method ReadIno(p: nat) returns (v: nat)
      requires p + 8 <= image.Length
      ensures v == Ino(image[..], p)
    {
      v := image[p] + 0x100 * (image[p + 1] as int) + 0x1_0000 * (image[p + 2] as int)
        + 0x100_0000 * (image[p + 3] as int);
    }

    /** Writes all of a record but its length. */
    method WriteNamed(p: nat, ino: nat, kind: Byte, name: Name)
      requires p + 8 + |name| <= image.Length && ino < 0x1_0000_0000 && |name| < 256
      modifies image
      ensures Written(image[..], p, old(RecLen(image[..], p)), Entry(name, ino))
      ensures forall j :: 0 <= j < image.Length && (j < p || p + 4 <= j < p + 6 || p + 8 + |name| <= j) ==>
                image[j] == old(image[j])
    {
      image[p], image[p + 1] := ino % 0x100, (ino / 0x100) % 0x100;
      image[p + 2], image[p + 3] := (ino / 0x1_0000) % 0x100, ino / 0x100_0000;
      image[p + 6], image[p + 7] := |name|, kind;
      label header:
      FourBytes(ino);
      for i := 0 to |name|
        invariant forall j :: 0 <= j < p + 8 ==> image[j] == old@header(image[j])
        invariant forall j :: 0 <= j < i ==> image[p + 8 + j] == name[j]
        invariant forall j :: p + 8 + |name| <= j < image.Length ==> image[j] == old(image[j])
      {
        image[p + 8 + i] := name[i];
      }
    }

    method WriteLen(p: nat, len: nat)
      requires p + 8 <= image.Length && len < 0x1_0000
      modifies image
      ensures RecLen(image[..], p) == len
      ensures forall j :: 0 <= j < image.Length && j != p + 4 && j != p + 5 ==> image[j] == old(image[j])
    {
      image[p + 4], image[p + 5] := len % 0x100, len / 0x100;
    }

    method ReadLen(p: nat) returns (v: nat)
      requires p + 8 <= image.Length
      ensures v == RecLen(image[..], p)
    {
      v := image[p + 4] + 0x100 * (image[p + 5] as int);
    }

    /** The old record keeps what it needs, the new one gets the rest. */
    method SplitRecord(base: nat, o: nat, used: nat, len: nat, ino: nat, kind: Byte, name: Name)
      requires base + blockSize <= image.Length && blockSize < 0x1_0000 && 0 < ino < 0x1_0000_0000 && |name| < 256
      requires var b := Slice(base); Tiled(b, 0) && Stop(b, 0, o) && o < blockSize && RecOk(b, o) && Ino(b, o) != 0
      requires used == MinLen(NameLen(Slice(base), o)) && len == RecLen(Slice(base), o)
      requires used + MinLen(|name|) <= len
      modifies image
      ensures Tiled(Slice(base), 0) && Seen(Slice(base), 0) == old(Seen(Slice(base), 0)) + multiset{Entry(name, ino)}
      ensures forall j :: 0 <= j < image.Length && !(base <= j < base + blockSize) ==> image[j] == old(image[j])
    {
      hide Tiled, Stop, Seen, Ino, NameLen, NameAt, MinLen;
      ghost var b := Slice(base);
      StopFits(b, o);
      assert used + 8 + |name| <= len by { NeedIs(|name|); }
      WriteLen(base + o, used);
      InSlice(image[..], base, blockSize, o);
      PutRecord(base, o + used, len - used, ino, kind, name);
      ghost var c := Slice(base);
      hide RecLen, Written;
      SplitBlock(b, c, o, Entry(name, ino));
    }

    lemma NeedIs(n: nat)
      ensures MinLen(n) >= 8 + n
    {}

    lemma StopFits(b: Block, o: nat)
      requires o < |b| && RecOk(b, o)
      ensures o + RecLen(b, o) <= |b|
    {}

    /** A whole record. */
    method PutRecord(base: nat, o: nat, len: nat, ino: nat, kind: Byte, name: Name)
      requires base + blockSize <= image.Length && o + 8 + |name| <= blockSize && len < 0x1_0000
      requires ino < 0x1_0000_0000 && |name| < 256
      modifies image
      ensures Written(Slice(base), o, len, Entry(name, ino))
      ensures forall j :: 0 <= j < image.Length && !(base + o <= j < base + o + 8 + |name|) ==>
                image[j] == old(image[j])
      ensures forall j :: 0 <= j < blockSize && !(o <= j < o + 8 + |name|) ==> Slice(base)[j] == old(Slice(base))[j]
    {
      hide Ino, NameLen, NameAt;
      WriteLen(base + o, len);
      WriteNamed(base + o, ino, kind, name);
      InSlice(image[..], base, blockSize, o);
    }

    /** An unused record takes the entry; its length stays. */
    method FillRecord(base: nat, o: nat, ino: nat, kind: Byte, name: Name)
      requires base + blockSize <= image.Length && 0 < ino < 0x1_0000_0000 && |name| < 256
      requires var b := Slice(base); Tiled(b, 0) && Stop(b, 0, o) && o < blockSize && RecOk(b, o) && Ino(b, o) == 0
      requires MinLen(|name|) <= RecLen(Slice(base), o)
      modifies image
      ensures Tiled(Slice(base), 0) && Seen(Slice(base), 0) == old(Seen(Slice(base), 0)) + multiset{Entry(name, ino)}
      ensures forall j :: 0 <= j < image.Length && !(base <= j < base + blockSize) ==> image[j] == old(image[j])
    {
      hide Tiled, Stop, Seen, Ino, NameLen, NameAt, MinLen;
      ghost var b := Slice(base);
      WriteNamed(base + o, ino, kind, name);
      ghost var c := Slice(base);
      InSlice(image[..], base, blockSize, o);
      assert Written(c, o, RecLen(b, o), Entry(name, ino));
      FillBlock(b, c, o, Entry(name, ino));
    }

    /** The scan of `insert_dirent` over one block: the entry goes to the first record
        with room, and when there is none nothing is written. */
    method InsertInBlock(base: nat, ino: nat, kind: Byte, name: Name) returns (done: bool)
      requires base + blockSize <= image.Length && blockSize < 0x1_0000 && 0 < ino < 0x1_0000_0000 && |name| < 256
      requires Tiled(Slice(base), 0)
      modifies image
      ensures done ==>
                Tiled(Slice(base), 0) && Seen(Slice(base), 0) == old(Seen(Slice(base), 0)) + multiset{Entry(name, ino)}
      ensures !done ==> image[..] == old(image[..])
      ensures done <==> !Full(old(Slice(base)), 0, MinLen(|name|))
      ensures forall j :: 0 <= j < image.Length && !(base <= j < base + blockSize) ==> image[j] == old(image[j])
    {
      hide Tiled, Stop, Seen, Full, Ino, RecLen, NameLen, NameAt, MinLen;
      ghost var b := Slice(base);
      var need := MinLen(|name|);
      var off := 0;
      AtStart(b);
      while off < blockSize
        invariant off <= blockSize && Tiled(b, off) && Stop(b, 0, off) && image[..] == old(image[..])
        invariant Full(b, 0, need) <==> Full(b, off, need)
        decreases blockSize - off
      {
        Head(b, off);
        InSlice(image[..], base, blockSize, off);
        StopNext(b, 0, off);
        FullStep(b, off, need);
        var len := ReadLen(base + off);
        if len < 8 { break; }
        var old_ino := ReadIno(base + off);
        var nameLen: nat := image[base + off + 6];
        NameLenIs(image[..], base + off);
        var used := if old_ino != 0 then MinLen(nameLen) else 0;
        if len - used >= need {
          if old_ino != 0 {
            SplitRecord(base, off, used, len, ino, kind, name);
          } else {
            FillRecord(base, off, ino, kind, name);
          }
          return true;
        }
        off := off + len;
      }
      FullEnd(b, need);
      done := false;
    }

    /** The name comparison of `find_cb` and of `ext2_unlink`. */
    method SameName(p: nat, name: Name) returns (same: bool)
      requires p + 8 <= image.Length && p + 8 + NameLen(image[..], p) <= image.Length
      ensures same <==> NameAt(image[..], p) == name
    {
      NameLenIs(image[..], p);
      if image[p + 6] != |name| { return false; }
      ghost var was := NameAt(image[..], p);
      for i := 0 to |name|
        invariant was[..i] == name[..i]
      {
        if image[p + 8 + i] != name[i] { return false; }
        assert was[..i + 1] == was[..i] + [was[i]] && name[..i + 1] == name[..i] + [name[i]];
      }
      assert was[..|name|] == was && name[..|name|] == name;
      same := true;
    }

    /** `walk_dirents` with `find_cb` over one block; 0 when the name is not there. */
    method FindInBlock(base: nat, name: Name) returns (ino: nat)
      requires base + blockSize <= image.Length && Tiled(Slice(base), 0)
      ensures ino == 0 <==> !Names(Seen(Slice(base), 0), name)
      ensures ino != 0 ==> Entry(name, ino) in Seen(Slice(base), 0)
    {
      hide Tiled, Stop, Seen, Names, Ino, RecLen, NameLen, NameAt, MinLen;
      ghost var b := Slice(base);
      var off := 0;
      AtStart(b);
      while off < blockSize
        invariant off <= blockSize && Tiled(b, off) && Stop(b, 0, off)
        invariant Names(Seen(b, 0), name) <==> Names(Seen(b, off), name)
        decreases blockSize - off
      {
        NamesStep(b, off, name);
        InSlice(image[..], base, blockSize, off);
        StopNext(b, 0, off);
        var len := ReadLen(base + off);
        if len < 8 { break; }
        ino := ReadIno(base + off);
        if ino != 0 {
          var same := SameName(base + off, name);
          if same {
            SeenFrom(b, 0, off, Entry(name, ino));
            return;
          }
        }
        off := off + len;
      }
      NamesEnd(b, name);
      ino := 0;
    }

    /** The removal loop of `ext2_unlink` over one block: the first record with the name
        is merged into the one before it, or switched off when it comes first. */
    method RemoveInBlock(base: nat, name: Name) returns (target: nat)
      requires base + blockSize <= image.Length && blockSize < 0x1_0000 && Tiled(Slice(base), 0)
      modifies image
      ensures target == 0 <==> !Names(old(Seen(Slice(base), 0)), name)
      ensures target == 0 ==> image[..] == old(image[..])
      ensures target != 0 ==>
                Tiled(Slice(base), 0) && old(Seen(Slice(base), 0)) == Seen(Slice(base), 0)
                  + multiset{Entry(name, target)}
      ensures forall j :: 0 <= j < image.Length && !(base <= j < base + blockSize) ==> image[j] == old(image[j])
    {
      hide Tiled, Stop, Seen, Names, Ino, RecLen, NameLen, NameAt, MinLen;
      ghost var b := Slice(base);
      var off, prev := 0, -1;
      AtStart(b);
      while off < blockSize
        invariant off <= blockSize && Tiled(b, off) && Stop(b, 0, off) && image[..] == old(image[..])
        invariant Names(Seen(b, 0), name) <==> Names(Seen(b, off), name)
        invariant prev < 0 ==> off == 0
        invariant prev >= 0 ==> Stop(b, 0, prev) && RecOk(b, prev) && off == prev + RecLen(b, prev)
        decreases blockSize - off
      {
        NamesStep(b, off, name);
        InSlice(image[..], base, blockSize, off);
        StopNext(b, 0, off);
        var len := ReadLen(base + off);
        if len < 8 { break; }
        target := ReadIno(base + off);
        if target != 0 {
          var same := SameName(base + off, name);
          if same {
            SeenFrom(b, 0, off, Entry(name, target));
            Drop(base, off, prev, len);
            return;
          }
        }
        prev := off;
        off := off + len;
      }
      NamesEnd(b, name);
      target := 0;
    }

    method Drop(base: nat, o: nat, prev: int, len: nat)
      requires base + blockSize <= image.Length && blockSize < 0x1_0000
      requires Tiled(Slice(base), 0) && Stop(Slice(base), 0, o) && o < blockSize && RecOk(Slice(base), o)
      requires Ino(Slice(base), o) != 0 && len == RecLen(Slice(base), o)
      requires var b := Slice(base); prev >= 0 ==> Stop(b, 0, prev) && RecOk(b, prev) && o == prev + RecLen(b, prev)
      requires prev < 0 ==> o == 0
      modifies image
      ensures Tiled(Slice(base), 0)
      ensures old(Seen(Slice(base), 0)) == Seen(Slice(base), 0)
              + multiset{old(Entry(NameAt(Slice(base), o), Ino(Slice(base), o)))}
      ensures forall j :: 0 <= j < image.Length && !(base <= j < base + blockSize) ==> image[j] == old(image[j])
    {
      hide Tiled, Stop, Seen, NameLen, NameAt, MinLen;
      ghost var b := Slice(base);
      if prev >= 0 {
        var prevLen := ReadLen(base + prev);
        assert prevLen == RecLen(b, prev);
        WriteLen(base + prev, prevLen + len);
        ghost var c := Slice(base);
        assert RecLen(c, prev) == prevLen + len;
        MergeBlock(b, c, prev, o);
      } else {
        image[base + o], image[base + o + 1], image[base + o + 2], image[base + o + 3] := 0, 0, 0, 0;
        ClearBlock(b, Slice(base), o);
      }
    }

    ghost predicate Valid()
      reads this, image
    {
      1024 <= blockSize <= 0x8000 && Placed(image[..], blockSize, index)
        && AllTiled(BlocksOf(image[..], blockSize, index))
    }

    ghost function Entries(): multiset<Entry>
      requires Valid()
      reads this, image
    {
      Sum(BlocksOf(image[..], blockSize, index))
    }

    /** The `i`-th block of the directory lies in the image. */
    lemma Here(i: nat)
      requires Valid() && i < |index|
      ensures var b := BlocksOf(image[..], blockSize, index)[i]; Tiled(b, 0) && (index[i] == 0 ==> b == [])
      ensures index[i] != 0 ==>
                && index[i] * blockSize + blockSize <= image.Length
                && BlocksOf(image[..], blockSize, index)[i] == Slice(index[i] * blockSize)
    {}

    /** `find_in_dir`; 0 when the name is not there. */
    method Find(name: Name) returns (ino: nat)
      requires Valid()
      ensures ino == 0 <==> !Names(Entries(), name)
      ensures ino != 0 ==> Entry(name, ino) in Entries()
    {
      hide Tiled, Seen, Names, Sum, BlocksOf, BlockOf, AllTiled, Slice;
      ghost var bs := BlocksOf(image[..], blockSize, index);
      SumNames(bs, name);
      for i := 0 to |index|
        invariant forall k :: 0 <= k < i ==> Tiled(bs[k], 0) && !Names(Seen(bs[k], 0), name)
      {
        Here(i);
        if index[i] == 0 {
          NamesEnd([], name);
          continue;
        }
        ino := FindInBlock(index[i] * blockSize, name);
        if ino != 0 {
          SumHolds(bs, i, Entry(name, ino));
          return;
        }
      }
      ino := 0;
    }

    /** No record of the first `n` blocks has `need` bytes to spare. */
    ghost predicate NoRoom(n: nat, need: nat)
      requires Valid() && n <= |index|
      reads this, image
    {
      forall i :: 0 <= i < n && index[i] != 0 ==> Full(BlocksOf(image[..], blockSize, index)[i], 0, need)
    }

    /** `insert_dirent`. `spare` is the block that growing the directory would get, 0 for
        none. The entry is added to what a walk sees. The directory grows, or without a spare
        block the call fails, exactly when no record has room. */
    method Insert(name: Name, ino: nat, kind: Byte, spare: nat) returns (r: int)
      requires Valid() && 0 < ino < 0x1_0000_0000 && 0 < |name| < 256
      requires spare != 0 ==> spare !in index && spare * blockSize + blockSize <= image.Length
      modifies this, image
      ensures Valid() && (r == 0 || r == -1)
      ensures r == 0 ==> Entries() == old(Entries()) + multiset{Entry(name, ino)}
      ensures r == -1 ==> index == old(index) && image[..] == old(image[..]) && spare == 0
      ensures r == -1 <==> spare == 0 && old(NoRoom(|index|, MinLen(|name|)))
      ensures index == if r == 0 && old(NoRoom(|index|, MinLen(|name|))) then old(index) + [spare] else old(index)
    {
      hide Tiled, Seen, Sum, BlocksOf, AllTiled, MinLen, Full, Placed, NoRoom;
      var done := InsertInside(name, ino, kind);
      if done { return 0; }
      if spare == 0 { return -1; }
      NewBlock(spare * blockSize, name, ino, kind);
      Grown(old(image[..]), image[..], blockSize, index, spare, Entry(name, ino));
      index := index + [spare];
      r := 0;
    }

    /** The part of `insert_dirent` that looks for room in the blocks there are. */
    method InsertInside(name: Name, ino: nat, kind: Byte) returns (done: bool)
      requires Valid() && 0 < ino < 0x1_0000_0000 && 0 < |name| < 256
      modifies image
      ensures Valid() && (done <==> !old(NoRoom(|index|, MinLen(|name|))))
      ensures if done then Entries() == old(Entries()) + multiset{Entry(name, ino)} else image[..] == old(image[..])
    {
      hide Tiled, Seen, Sum, BlocksOf, AllTiled, MinLen, Full, Placed;
      for i := 0 to |index|
        invariant image[..] == old(image[..])
        invariant old(NoRoom(i, MinLen(|name|)))
      {
        Here(i);
        if index[i] == 0 { continue; }
        done := InsertInBlock(index[i] * blockSize, ino, kind, name);
        if done {
          Edited(old(image[..]), image[..], blockSize, index, i, Entry(name, ino));
          return;
        }
      }
      done := false;
    }

    /** A new block holds the entry alone, in one record that fills it. */
    method NewBlock(base: nat, name: Name, ino: nat, kind: Byte)
      requires base + blockSize <= image.Length && 1024 <= blockSize <= 0x8000 && 0 < ino < 0x1_0000_0000
      requires |name| < 256
      modifies image
      ensures Tiled(Slice(base), 0) && Seen(Slice(base), 0) == multiset{Entry(name, ino)}
      ensures forall j :: 0 <= j < image.Length && !(base <= j < base + blockSize) ==> image[j] == old(image[j])
    {
      hide Tiled, Seen, Ino, NameLen, NameAt, MinLen;
      WriteLen(base, blockSize);
      WriteNamed(base, ino, kind, name);
      InSlice(image[..], base, blockSize, 0);
      FreshBlock(Slice(base), Entry(name, ino));
    }

    /** The removal of `ext2_unlink`: the first entry with the name goes; its inode is
        the result, 0 when the name is not there. */
    method Remove(name: Name) returns (target: nat)
      requires Valid()
      modifies image
      ensures Valid()
      ensures target == 0 <==> !Names(old(Entries()), name)
      ensures target == 0 ==> image[..] == old(image[..])
      ensures target != 0 ==> old(Entries()) == Entries() + multiset{Entry(name, target)}
    {
      hide Tiled, Seen, Sum, BlocksOf, AllTiled, Placed, Names;
      ghost var bs := BlocksOf(image[..], blockSize, index);
      SumNames(bs, name);
      for i := 0 to |index|
        invariant image[..] == old(image[..])
        invariant forall k :: 0 <= k < i ==> Tiled(bs[k], 0) && !Names(Seen(bs[k], 0), name)
      {
        Here(i);
        if index[i] == 0 {
          NamesEnd([], name);
          continue;
        }
        target := RemoveInBlock(index[i] * blockSize, name);
        if target != 0 {
          Edited(old(image[..]), image[..], blockSize, index, i, Entry(name, target));
          return;
        }
      }
      target := 0;
    }
  }
}
