/** Paths: how `lufirafs_lookup` cuts a path into components, and that this agrees
    with how `lufirafs_resolve_parent` splits off the last name and with how
    `lufirafs_get_path` prints. */
module LufiraPath {
  import opened LufiraFormat
  import opened LufiraTree

  const SLASH: Byte := 47

  /** How many bytes from `p` on belong to one component: up to a slash, at most 59. */
  function CompLen(path: seq<Byte>, p: nat, max: nat): (n: nat)
    requires p <= |path|
    ensures n <= max && p + n <= |path|
    ensures forall k :: p <= k < p + n ==> path[k] != SLASH
    ensures n < max && p + n < |path| ==> path[p + n] == SLASH
    decreases max
  {
    if max == 0 || p == |path| || path[p] == SLASH then 0 else 1 + CompLen(path, p + 1, max - 1)
  }

  function SkipSlashes(path: seq<Byte>, p: nat): (q: nat)
    requires p <= |path|
    ensures p <= q <= |path|
    ensures forall k :: p <= k < q ==> path[k] == SLASH
    ensures q < |path| ==> path[q] != SLASH
    decreases |path| - p
  {
    if p < |path| && path[p] == SLASH then SkipSlashes(path, p + 1) else p
  }

  /** The components that the loop of `lufirafs_lookup` looks up, from position `p`. */
  function Components(path: seq<Byte>, p: nat): seq<Name>
    requires p <= |path|
    decreases |path| - p
  {
    if p == |path| then []
    else
      var n := CompLen(path, p, MAX_NAME);
      var q := SkipSlashes(path, p + n);
      if n == 0 then Components(path, q) else [path[p..p + n]] + Components(path, q)
  }

  lemma ComponentsEnd(path: seq<Byte>)
    ensures Components(path, |path|) == []
  {}

  lemma ComponentsStep(path: seq<Byte>, p: nat)
    requires p < |path|
    ensures var n := CompLen(path, p, MAX_NAME);
            var q := SkipSlashes(path, p + n);
            p < q && Components(path, p) == (if n == 0 then [] else [path[p..p + n]]) + Components(path, q)
  {
    hide CompLen, SkipSlashes;
  }

  function Base(start: nat, path: seq<Byte>): nat {
    if path != [] && path[0] == SLASH then ROOT else start
  }

  // ----------------------------------------------------- cutting at a slash

  lemma {:induction false} CompLenPrefix(a: seq<Byte>, b: seq<Byte>, p: nat, max: nat)
    requires p <= |a| && (b == [] || b[0] == SLASH)
    ensures CompLen(a + b, p, max) == CompLen(a, p, max)
    decreases max
  {
    if max > 0 && p < |a| && a[p] != SLASH { CompLenPrefix(a, b, p + 1, max - 1); }
  }

  lemma {:induction false} SkipPrefix(a: seq<Byte>, b: seq<Byte>, p: nat)
    requires p <= |a|
    ensures SkipSlashes(a, p) < |a| ==> SkipSlashes(a + b, p) == SkipSlashes(a, p)
    ensures SkipSlashes(a, p) == |a| ==> SkipSlashes(a + b, p) == |a| + SkipSlashes(b, 0)
    decreases |a| - p
  {
    if p == |a| {
      SkipShift(a, b, 0);
    } else if a[p] == SLASH {
      SkipPrefix(a, b, p + 1);
    }
  }

  lemma {:induction false} SkipShift(a: seq<Byte>, b: seq<Byte>, p: nat)
    requires p <= |b|
    ensures SkipSlashes(a + b, |a| + p) == |a| + SkipSlashes(b, p)
    decreases |b| - p
  {
    if p < |b| && b[p] == SLASH { SkipShift(a, b, p + 1); }
  }

  lemma {:induction false} CompLenShift(a: seq<Byte>, b: seq<Byte>, p: nat, max: nat)
    requires p <= |b|
    ensures CompLen(a + b, |a| + p, max) == CompLen(b, p, max)
    decreases max
  {
    if max > 0 && p < |b| && b[p] != SLASH { CompLenShift(a, b, p + 1, max - 1); }
  }

  lemma {:induction false} ComponentsShift(a: seq<Byte>, b: seq<Byte>, p: nat)
    requires p <= |b|
    ensures Components(a + b, |a| + p) == Components(b, p)
    decreases |b| - p
  {
    hide CompLen, SkipSlashes, Components;
    if p == |b| {
      ComponentsEnd(a + b);
      ComponentsEnd(b);
    } else {
      ComponentsStep(b, p);
      ComponentsStep(a + b, |a| + p);
      CompLenShift(a, b, p, MAX_NAME);
      var n := CompLen(b, p, MAX_NAME);
      SkipShift(a, b, p + n);
      assert (a + b)[|a| + p..|a| + p + n] == b[p..p + n];
      ComponentsShift(a, b, SkipSlashes(b, p + n));
    }
  }

  /** Leading slashes do not matter. */
  lemma SkippedSlashes(b: seq<Byte>, p: nat)
    requires p <= |b|
    ensures Components(b, SkipSlashes(b, p)) == Components(b, p)
  {
    if p < |b| && b[p] == SLASH { assert CompLen(b, p, MAX_NAME) == 0; }
  }

  /** Cutting a path in front of a slash cuts its list of components. */
  lemma Grouped(a: seq<Name>, b: seq<Name>, c: seq<Name>)
    ensures a + (b + c) == a + b + c
  {}

  lemma {:induction false} ComponentsConcat(a: seq<Byte>, b: seq<Byte>, p: nat)
    requires p <= |a| && (b == [] || b[0] == SLASH)
    ensures Components(a + b, p) == Components(a, p) + Components(b, 0)
    decreases |a| - p
  {
    hide CompLen, SkipSlashes, Components;
    if p == |a| {
      ComponentsEnd(a);
      ComponentsShift(a, b, 0);
    } else {
      ComponentsStep(a, p);
      ComponentsStep(a + b, p);
      CompLenPrefix(a, b, p, MAX_NAME);
      var n := CompLen(a, p, MAX_NAME);
      var q := SkipSlashes(a, p + n);
      SkipPrefix(a, b, p + n);
      assert (a + b)[p..p + n] == a[p..p + n];
      var first := if n == 0 then [] else [a[p..p + n]];
      if q < |a| {
        ComponentsConcat(a, b, q);
        Grouped(first, Components(a, q), Components(b, 0));
      } else {
        ComponentsEnd(a);
        ComponentsShift(a, b, SkipSlashes(b, 0));
        SkippedSlashes(b, 0);
      }
    }
  }

  predicate AllSlashes(s: seq<Byte>) { forall k :: 0 <= k < |s| ==> s[k] == SLASH }

  lemma {:induction false} CompLenOfName(s: seq<Byte>, nm: Name, p: nat, max: nat)
    requires p <= |nm| && |nm| - p <= max && |nm| <= |s| && s[..|nm|] == nm
    requires forall k :: 0 <= k < |nm| ==> nm[k] != SLASH
    requires |nm| == |s| || s[|nm|] == SLASH
    ensures CompLen(s, p, max) == |nm| - p
    decreases max
  {
    if p < |nm| { assert s[p] == nm[p]; CompLenOfName(s, nm, p + 1, max - 1); }
  }

  /** A name with slashes behind it is one component. */
  lemma ComponentsOfName(nm: Name, tail: seq<Byte>)
    requires NameOk(nm) && AllSlashes(tail)
    ensures Components(nm + tail, 0) == [nm]
  {
    var s := nm + tail;
    CompLenOfName(s, nm, 0, MAX_NAME);
    assert s[0..|nm|] == nm;
    var q := SkipSlashes(s, |nm|);
  }

  lemma ComponentsOfSlashName(nm: Name, tail: seq<Byte>)
    requires NameOk(nm) && AllSlashes(tail)
    ensures Components([SLASH] + (nm + tail), 0) == [nm]
  {
    var s := nm + tail;
    ComponentsOfName(nm, tail);
    assert CompLen([SLASH] + s, 0, MAX_NAME) == 0;
    SkipPrefix([SLASH], s, 0);
    assert SkipSlashes([SLASH], 0) == 1;
    assert s[0] == nm[0] != SLASH;
    ComponentsShift([SLASH], s, 0);
  }

  // ---------------------------------------------------------- printing paths

  /** What `lufirafs_get_path` prints for a list of names, outermost first. */
  function Print(names: seq<Name>): seq<Byte> {
    if names == [] then [] else [SLASH] + names[0] + Print(names[1..])
  }

  ghost predicate NamesOk(names: seq<Name>) { forall k :: 0 <= k < |names| ==> NameOk(names[k]) }

  /** Reading a printed path gives the names back. */
  lemma {:induction false} PrintRoundTrip(names: seq<Name>)
    requires NamesOk(names)
    ensures Components(Print(names), 0) == names
  {
    if names != [] {
      var nm, rest := names[0], Print(names[1..]);
      assert Print(names) == ([SLASH] + (nm + [])) + rest by { assert nm + [] == nm; }
      assert rest == [] || rest[0] == SLASH;
      ComponentsOfSlashName(nm, []);
      ComponentsConcat([SLASH] + (nm + []), rest, 0);
      PrintRoundTrip(names[1..]);
      assert names == [nm] + names[1..];
    }
  }

  lemma {:induction false} PrintSnoc(names: seq<Name>, nm: Name)
    ensures Print(names + [nm]) == Print(names) + [SLASH] + nm
  {
    if names == [] {
      assert names + [nm] == [nm] && [nm][1..] == [];
      assert Print([nm]) == [SLASH] + nm + [];
    } else {
      assert (names + [nm])[1..] == names[1..] + [nm];
      PrintSnoc(names[1..], nm);
    }
  }

  // -------------------------------------------------------- splitting off

  /** `path` is `path[..slash]`, one slash, a name, and slashes: the split of
      `lufirafs_resolve_parent`. */
  ghost predicate Splits(path: seq<Byte>, slash: nat, len: nat) {
    && slash < len <= |path| && path[slash] == SLASH
    && AllSlashes(path[len..]) && NameOk(path[slash + 1..len])
  }

  /** The path up to `len` has no trailing slash (one slash alone stays), and `slash` is the
      last slash of that, -1 if there is none. */
  ghost predicate LastPart(path: seq<Byte>, len: nat, slash: int)
    ensures LastPart(path, len, slash) ==> 1 <= len <= |path| && -1 <= slash < len
  {
    && 1 <= len <= |path| && AllSlashes(path[len..]) && -1 <= slash < len
    && (slash != -1 ==> path[slash] == SLASH) && (forall k :: slash < k < len ==> path[k] != SLASH)
  }

  /** The name behind the last slash, and the directory part before it. */
  function NamePart(path: seq<Byte>, len: nat, slash: int): Name
    requires LastPart(path, len, slash) && len - (slash + 1) <= MAX_NAME
  {
    path[slash + 1..len]
  }

  function DirPart(path: seq<Byte>, len: nat, slash: int): seq<Byte>
    requires LastPart(path, len, slash)
  {
    if slash <= 0 then [] else path[..slash]
  }

  /** The last name is there and fits an entry, and the part before it, if any, is shorter
      than 256 bytes and leads somewhere. */
  ghost predicate Resolvable(t: Tree, start: nat, path: seq<Byte>, len: nat, slash: int)
    requires LastPart(path, len, slash)
  {
    && 0 < len - (slash + 1) <= MAX_NAME
    && (slash > 0 ==> slash < 256 && Walk(t, Base(start, path), Components(DirPart(path, len, slash), 0)) != 0)
  }

  /** Looking up the split-off name in the looked-up parent is looking up the path. */
  lemma SplitAgrees(t: Tree, start: nat, path: seq<Byte>, slash: nat, len: nat)
    requires Splits(path, slash, len) && !Live(t, 0)
    ensures Walk(t, Base(start, path), Components(path, 0)) ==
            To(t, Walk(t, Base(start, path), Components(path[..slash], 0)), path[slash + 1..len])
  {
    var nm, tail := path[slash + 1..len], path[len..];
    assert path == path[..slash] + ([SLASH] + (nm + tail));
    ComponentsConcat(path[..slash], [SLASH] + (nm + tail), 0);
    ComponentsOfSlashName(nm, tail);
    WalkAppend(t, Base(start, path), Components(path[..slash], 0), nm);
  }

  lemma FirstSlash(path: seq<Byte>)
    requires path != [] && path[0] == SLASH
    ensures Components(path, 1) == Components(path, 0)
  {
    assert CompLen(path, 0, MAX_NAME) == 0;
    SkippedSlashes(path, 1);
  }

  lemma OneName(t: Tree, start: nat, path: seq<Byte>, len: nat)
    requires len <= |path| && NameOk(path[0..len]) && AllSlashes(path[len..])
    ensures Walk(t, Base(start, path), Components(path, 0)) == To(t, start, path[0..len])
  {
    var nm: Name, tail := path[0..len], path[len..];
    assert path == nm + tail;
    ComponentsOfName(nm, tail);
    assert path[0] == nm[0];
  }

  /** A last part that fits is a name, and what it stands for agrees with the whole path. */
  lemma LastName(t: Tree, start: nat, path: seq<Byte>, len: nat, slash: int)
    requires LastPart(path, len, slash) && 0 < len - (slash + 1) <= MAX_NAME
    requires forall k :: 0 <= k < |path| ==> path[k] != 0
    ensures NameOk(NamePart(path, len, slash))
    ensures !Live(t, 0) || slash == -1 ==>
              Walk(t, Base(start, path), Components(path, 0)) ==
              To(t, Walk(t, Base(start, path), Components(DirPart(path, len, slash), 0)), NamePart(path, len, slash))
    ensures slash <= 0 ==>
              Walk(t, Base(start, path), Components(DirPart(path, len, slash), 0)) == if slash == 0 then ROOT else start
    ensures slash > 0 ==> Base(start, DirPart(path, len, slash)) == Base(start, path)
  {
    assert NameOk(path[slash + 1..len]);
    if slash == -1 { OneName(t, start, path, len); } else if !Live(t, 0) { SplitAgrees(t, start, path, slash, len); }
    assert slash == 0 ==> path[..slash] == [];
  }

  lemma {:induction false} PrintLonger(names: seq<Name>, k: nat)
    requires k <= |names|
    ensures |Print(names[..k])| <= |Print(names)|
    decreases k
  {
    if k > 0 {
      assert names[..k][1..] == names[1..][..k - 1];
      PrintLonger(names[1..], k - 1);
    }
  }

  lemma RootPrints(t: Tree)
    ensures Walk(t, ROOT, Components([SLASH], 0)) == ROOT
  {
    assert CompLen([SLASH], 0, MAX_NAME) == 0;
    assert SkipSlashes([SLASH], 0) == 1;
  }
}
