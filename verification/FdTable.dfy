/** Descriptor tables and the reference counts of pipe ends. Both ends of a pipe are
    file objects; `dup2` and fork make further descriptors name the same object, and
    each such descriptor counts once in the object's `ref_count` and once in the
    pipe's `readers` or `writers`. */
module FdTable {

  const MAX_FD: nat := 16

  datatype End = ReadEnd | WriteEnd

  /** A file object on a pipe end. */
  datatype File = File(end: End, pipe: nat, refCount: nat)

  datatype PipeEnds = PipeEnds(readers: nat, writers: nat)

  /** A descriptor of a process. */
  datatype Fd = Fd(process: nat, number: nat)

  type Slots = map<Fd, nat>

  ghost function Naming(slots: Slots, f: nat): set<Fd> { set k | k in slots && slots[k] == f }

  lemma NamingAdd(slots: Slots, k: Fd, f: nat)
    requires k !in slots
    ensures Naming(slots[k := f], f) == Naming(slots, f) + {k} && |Naming(slots[k := f], f)| == |Naming(slots, f)| + 1
    ensures forall g :: g != f ==> Naming(slots[k := f], g) == Naming(slots, g)
  {
    assert Naming(slots[k := f], f) == Naming(slots, f) + {k};
    forall g | g != f ensures Naming(slots[k := f], g) == Naming(slots, g) {}
  }

  lemma NamingRemove(slots: Slots, k: Fd)
    requires k in slots
    ensures Naming(slots - {k}, slots[k]) == Naming(slots, slots[k]) - {k}
    ensures |Naming(slots - {k}, slots[k])| == |Naming(slots, slots[k])| - 1
    ensures forall g :: g != slots[k] ==> Naming(slots - {k}, g) == Naming(slots, g)
  {
    var f := slots[k];
    assert k in Naming(slots, f);
    assert Naming(slots - {k}, f) == Naming(slots, f) - {k};
    forall g | g != f ensures Naming(slots - {k}, g) == Naming(slots, g) {}
  }

  datatype Vfs = Vfs(slots: Slots, files: map<nat, File>, pipes: map<nat, PipeEnds>)

  /** How many descriptors name an end of pipe `p`: its file object counts them all. */
  ghost predicate EndCount(v: Vfs, p: nat, e: End, n: nat) {
    && (n > 0 ==> exists f :: IsEnd(v, f, p, e))
    && (forall f :: IsEnd(v, f, p, e) ==> v.files[f].refCount == n)
    && (forall f, g :: IsEnd(v, f, p, e) && IsEnd(v, g, p, e) ==> f == g)
  }

  predicate IsEnd(v: Vfs, f: nat, p: nat, e: End) { f in v.files && v.files[f].pipe == p && v.files[f].end == e }

  ghost predicate SlotsOk(v: Vfs) { forall k :: k in v.slots ==> v.slots[k] in v.files && k.number < MAX_FD }

  ghost predicate FilesOk(v: Vfs) {
    forall f :: f in v.files ==> v.files[f].refCount == |Naming(v.slots, f)| > 0 && v.files[f].pipe in v.pipes
  }

  ghost predicate PipesOk(v: Vfs) {
    forall p :: p in v.pipes ==>
      && EndCount(v, p, ReadEnd, CountOf(v.pipes[p], ReadEnd))
         && EndCount(v, p, WriteEnd, CountOf(v.pipes[p], WriteEnd))
      && v.pipes[p].readers + v.pipes[p].writers > 0
  }

  /** Every count equals the number of descriptors it stands for; objects and pipes
      that nothing names are gone. */
  ghost predicate Ok(v: Vfs) { SlotsOk(v) && FilesOk(v) && PipesOk(v) }

  // ------------------------------------------------------------- elementary

  function Bump(p: PipeEnds, e: End): PipeEnds {
    if e == ReadEnd then p.(readers := p.readers + 1) else p.(writers := p.writers + 1)
  }

  function CountOf(p: PipeEnds, e: End): nat { if e == ReadEnd then p.readers else p.writers }

  /** `vfs_dup_fd` and the new table entry. */
  function Dup(v: Vfs, k: Fd, f: nat): Vfs
    requires f in v.files && v.files[f].pipe in v.pipes
  {
    var file := v.files[f];
    Vfs(v.slots[k := f], v.files[f := file.(refCount := file.refCount + 1)],
        v.pipes[file.pipe := Bump(v.pipes[file.pipe], file.end)])
  }

  /** What `Close` needs of descriptor `k`. */
  ghost predicate Closable(v: Vfs, k: Fd) {
    && k in v.slots && v.slots[k] in v.files && v.files[v.slots[k]].pipe in v.pipes
    && v.files[v.slots[k]].refCount > 0 && CountOf(v.pipes[v.files[v.slots[k]].pipe], v.files[v.slots[k]].end) > 0
  }

  /** `vfs_close`: the end's close handler, then the object's count. */
  function Close(v: Vfs, k: Fd): Vfs
    requires Closable(v, k)
  {
    var f := v.slots[k];
    var file := v.files[f];
    var p := v.pipes[file.pipe];
    var p' := if file.end == ReadEnd then p.(readers := p.readers - 1) else p.(writers := p.writers - 1);
    var pipes := if p'.readers == 0 && p'.writers == 0 then v.pipes - {file.pipe} else v.pipes[file.pipe := p'];
    var files := if file.refCount - 1 <= 0 then v.files - {f} else v.files[f := file.(refCount := file.refCount - 1)];
    Vfs(v.slots - {k}, files, pipes)
  }

  /** A new pipe `p` with its two ends in two free descriptors. */
  function Opened(v: Vfs, p: nat, rf: nat, wf: nat, rk: Fd, wk: Fd): Vfs {
    Vfs(v.slots[rk := rf][wk := wf], v.files[rf := File(ReadEnd, p, 1)][wf := File(WriteEnd, p, 1)],
      v.pipes[p := PipeEnds(1, 1)])
  }

  // ------------------------------------------------------------ preservation

  lemma OtherEnds(v: Vfs, u: Vfs, p: nat, e: End, n: nat)
    requires EndCount(v, p, e, n)
    requires forall f :: IsEnd(u, f, p, e) <==> IsEnd(v, f, p, e)
    requires forall f :: IsEnd(v, f, p, e) ==> f in u.files && u.files[f].refCount == v.files[f].refCount
    ensures EndCount(u, p, e, n)
  {
    if n > 0 { var f :| IsEnd(v, f, p, e); assert IsEnd(u, f, p, e); }
  }

  lemma OneEnd(u: Vfs, p: nat, e: End, f: nat)
    requires IsEnd(u, f, p, e) && forall g :: IsEnd(u, g, p, e) ==> g == f
    ensures EndCount(u, p, e, u.files[f].refCount)
  {}

  lemma EndCounted(v: Vfs, p: nat, e: End)
    requires PipesOk(v) && p in v.pipes
    ensures EndCount(v, p, e, CountOf(v.pipes[p], e))
  {
    hide EndCount;
  }

  lemma EndOf(v: Vfs, f: nat)
    requires FilesOk(v) && PipesOk(v) && f in v.files
    ensures var file := v.files[f];
            && IsEnd(v, f, file.pipe, file.end) && file.refCount == CountOf(v.pipes[file.pipe], file.end)
            && forall g :: IsEnd(v, g, file.pipe, file.end) ==> g == f
  {
    var file := v.files[f];
    assert IsEnd(v, f, file.pipe, file.end) && file.pipe in v.pipes;
    hide PipesOk, FilesOk;
    EndCounted(v, file.pipe, file.end);
  }

  lemma DupIsEnd(v: Vfs, k: Fd, f: nat, g: nat, q: nat, d: End)
    requires f in v.files && v.files[f].pipe in v.pipes
    ensures IsEnd(Dup(v, k, f), g, q, d) <==> IsEnd(v, g, q, d)
  {}

  lemma DupEnds(v: Vfs, k: Fd, f: nat, p: nat, e: End)
    requires FilesOk(v) && PipesOk(v) && f in v.files && v.files[f].pipe in v.pipes && p in v.pipes
    ensures EndCount(Dup(v, k, f), p, e, CountOf(Dup(v, k, f).pipes[p], e))
  {
    hide EndCount, FilesOk, PipesOk;
    var u, file := Dup(v, k, f), v.files[f];
    EndOf(v, f);
    EndCounted(v, p, e);
    forall g, q, d ensures IsEnd(u, g, q, d) <==> IsEnd(v, g, q, d) { DupIsEnd(v, k, f, g, q, d); }
    if p == file.pipe && e == file.end { OneEnd(u, p, e, f); } else { OtherEnds(v, u, p, e, CountOf(v.pipes[p], e)); }
  }

  /** One more descriptor for an object keeps every count right. */
  lemma DupOk(v: Vfs, k: Fd, f: nat)
    requires Ok(v) && k !in v.slots && k.number < MAX_FD && f in v.files
    ensures Ok(Dup(v, k, f))
  {
    hide EndCount;
    var u := Dup(v, k, f);
    NamingAdd(v.slots, k, f);
    hide Naming;
    forall p, e | p in v.pipes ensures EndCount(u, p, e, CountOf(u.pipes[p], e)) { DupEnds(v, k, f, p, e); }
  }

  /** The count of a named end, its object and its pipe all agree. */
  lemma CountsAgree(v: Vfs, k: Fd)
    requires Ok(v) && k in v.slots
    ensures v.slots[k] in v.files && v.files[v.slots[k]].pipe in v.pipes
    ensures var file := v.files[v.slots[k]];
            file.refCount == CountOf(v.pipes[file.pipe], file.end) == |Naming(v.slots, v.slots[k])| > 0
  {
    EndOf(v, v.slots[k]);
  }

  /** What `Close` does to files and pipes, by key. */
  lemma ClosedAt(v: Vfs, k: Fd, g: nat)
    requires Ok(v) && Closable(v, k)
    ensures var u, f := Close(v, k), v.slots[k];
            && (g != f ==> (g in u.files <==> g in v.files) && (g in u.files ==> u.files[g] == v.files[g]))
            && (f in u.files <==> v.files[f].refCount > 1)
            && (f in u.files ==> u.files[f] == v.files[f].(refCount := v.files[f].refCount - 1))
  {
    hide Ok;
  }

  lemma ClosedPipeAt(v: Vfs, k: Fd, p: nat, e: End)
    requires Ok(v) && Closable(v, k)
    requires p in Close(v, k).pipes
    ensures p == v.files[v.slots[k]].pipe ==> Close(v, k).pipes[p].readers + Close(v, k).pipes[p].writers > 0
    ensures p in v.pipes
    ensures var file := v.files[v.slots[k]];
            CountOf(Close(v, k).pipes[p], e) ==
              CountOf(v.pipes[p], e) - if p == file.pipe && e == file.end then 1 else 0
    ensures p != v.files[v.slots[k]].pipe ==> Close(v, k).pipes[p] == v.pipes[p]
  {
    hide Ok;
  }

  lemma CloseEnds(v: Vfs, k: Fd, p: nat, e: End)
    requires Ok(v) && Closable(v, k)
    requires p in Close(v, k).pipes
    ensures EndCount(Close(v, k), p, e, CountOf(Close(v, k).pipes[p], e))
  {
    hide Close, Naming, SlotsOk;
    var f := v.slots[k];
    var u, file := Close(v, k), v.files[f];
    EndOf(v, f);
    ClosedPipeAt(v, k, p, e);
    EndCounted(v, p, e);
    hide FilesOk, PipesOk;
    forall g ensures IsEnd(u, g, p, e) <==> IsEnd(v, g, p, e) && g in u.files { ClosedAt(v, k, g); }
    ClosedAt(v, k, f);
    if p == file.pipe && e == file.end {
      if f in u.files { OneEnd(u, p, e, f); }
    } else {
      forall g | IsEnd(v, g, p, e) ensures g in u.files && u.files[g].refCount == v.files[g].refCount {
        ClosedAt(v, k, g);
      }
      OtherEnds(v, u, p, e, CountOf(v.pipes[p], e));
    }
  }

  lemma CloseSlots(v: Vfs, k: Fd)
    requires Ok(v) && Closable(v, k)
    ensures SlotsOk(Close(v, k)) && FilesOk(Close(v, k))
    ensures var f := v.slots[k]; f in Close(v, k).files <==> Naming(v.slots, f) != {k}
  {
    hide Naming, SlotsOk, FilesOk, PipesOk, Close;
    ClosedNames(v, k);
    CloseNames(v, k);
    CloseFiles(v, k);
  }

  /** The object stays exactly if a further descriptor names it. */
  lemma ClosedNames(v: Vfs, k: Fd)
    requires Ok(v) && Closable(v, k)
    ensures var f := v.slots[k];
            && (f in Close(v, k).files <==> Naming(v.slots, f) != {k})
            && (f in Close(v, k).files <==> Naming(v.slots - {k}, f) != {})
  {
    var f := v.slots[k];
    NamingRemove(v.slots, k);
    assert k in Naming(v.slots, f);
    if Naming(v.slots - {k}, f) == {} { assert Naming(v.slots, f) == {k}; }
    hide PipesOk, SlotsOk, Close, Naming;
    ClosedAt(v, k, f);
  }

  lemma CloseNames(v: Vfs, k: Fd)
    requires Ok(v) && Closable(v, k)
    ensures SlotsOk(Close(v, k))
  {
    var f, u := v.slots[k], Close(v, k);
    assert u.slots == v.slots - {k};
    hide Close, PipesOk, FilesOk;
    ClosedNames(v, k);
    forall j | j in u.slots ensures u.slots[j] in u.files {
      if u.slots[j] == f { assert j in Naming(v.slots - {k}, f); }
      ClosedAt(v, k, u.slots[j]);
    }
  }

  lemma CloseFiles(v: Vfs, k: Fd)
    requires Ok(v) && Closable(v, k)
    ensures FilesOk(Close(v, k))
  {
    var u := Close(v, k);
    assert u.slots == v.slots - {k};
    hide Close, PipesOk, SlotsOk, Naming;
    NamingRemove(v.slots, k);
    ClosedAt(v, k, v.slots[k]);
    forall g | g in u.files ensures u.files[g].refCount == |Naming(u.slots, g)| > 0 && u.files[g].pipe in u.pipes {
      ClosedAt(v, k, g);
      ClosedPipe(v, u, k, g);
    }
  }

  /** One descriptor less: the object goes with its last descriptor, the pipe with the
      last descriptor of both ends, and every count stays right. */
  lemma CloseOk(v: Vfs, k: Fd)
    requires Ok(v) && k in v.slots
    ensures Closable(v, k)
    ensures Ok(Close(v, k))
    ensures var f := v.slots[k]; f in Close(v, k).files <==> Naming(v.slots, f) != {k}
  {
    hide Close, EndCount, Naming;
    CountsAgree(v, k);
    CloseSlots(v, k);
    var u := Close(v, k);
    forall p | p in u.pipes
      ensures EndCount(u, p, ReadEnd, CountOf(u.pipes[p], ReadEnd))
      ensures EndCount(u, p, WriteEnd, CountOf(u.pipes[p], WriteEnd))
      ensures u.pipes[p].readers + u.pipes[p].writers > 0
    {
      CloseEnds(v, k, p, ReadEnd);
      CloseEnds(v, k, p, WriteEnd);
      ClosedPipeAt(v, k, p, ReadEnd);
    }
  }

  /** A pipe goes only when no object is left on either end. */
  lemma ClosedPipe(v: Vfs, u: Vfs, k: Fd, g: nat)
    requires Ok(v) && Closable(v, k)
    requires u == Close(v, k) && g in u.files
    ensures u.files[g].pipe in u.pipes
  {
    hide Naming, SlotsOk;
    var f := v.slots[k];
    EndOf(v, f);
    EndOf(v, g);
    if v.files[g].pipe == v.files[f].pipe && v.files[g].end == v.files[f].end { assert g == f; }
  }

  lemma OpenOk(v: Vfs, p: nat, rf: nat, wf: nat, rk: Fd, wk: Fd)
    requires Ok(v) && p !in v.pipes && rf !in v.files && wf !in v.files && rf != wf
    requires rk !in v.slots && wk !in v.slots && rk != wk && rk.number < MAX_FD && wk.number < MAX_FD
    ensures Ok(Opened(v, p, rf, wf, rk, wk))
  {
    var u := Opened(v, p, rf, wf, rk, wk);
    OpenSlots(v, p, rf, wf, rk, wk);
    hide Naming, EndCount, SlotsOk;
    forall q, e | q in u.pipes ensures EndCount(u, q, e, CountOf(u.pipes[q], e)) {
      OpenEnds(v, p, rf, wf, rk, wk, q, e);
    }
  }

  lemma OpenSlots(v: Vfs, p: nat, rf: nat, wf: nat, rk: Fd, wk: Fd)
    requires Ok(v) && p !in v.pipes && rf !in v.files && wf !in v.files && rf != wf
    requires rk !in v.slots && wk !in v.slots && rk != wk && rk.number < MAX_FD && wk.number < MAX_FD
    ensures SlotsOk(Opened(v, p, rf, wf, rk, wk)) && FilesOk(Opened(v, p, rf, wf, rk, wk))
  {
    hide PipesOk, Naming, FilesOk, Opened;
    OpenNames(v, p, rf, wf, rk, wk);
    OpenFiles(v, p, rf, wf, rk, wk);
  }

  lemma OpenNames(v: Vfs, p: nat, rf: nat, wf: nat, rk: Fd, wk: Fd)
    requires SlotsOk(v) && rk.number < MAX_FD && wk.number < MAX_FD
    ensures SlotsOk(Opened(v, p, rf, wf, rk, wk))
  {}

  lemma OpenFiles(v: Vfs, p: nat, rf: nat, wf: nat, rk: Fd, wk: Fd)
    requires SlotsOk(v) && FilesOk(v) && rf !in v.files && wf !in v.files && rf != wf
    requires rk !in v.slots && wk !in v.slots && rk != wk
    ensures FilesOk(Opened(v, p, rf, wf, rk, wk))
  {
    assert Naming(v.slots, rf) == {} && Naming(v.slots, wf) == {};
    hide Naming, SlotsOk;
    NamingAdd(v.slots, rk, rf);
    NamingAdd(v.slots[rk := rf], wk, wf);
  }

  lemma OpenEnds(v: Vfs, p: nat, rf: nat, wf: nat, rk: Fd, wk: Fd, q: nat, e: End)
    requires Ok(v) && p !in v.pipes && rf !in v.files && wf !in v.files && rf != wf
    requires q in Opened(v, p, rf, wf, rk, wk).pipes
    ensures EndCount(Opened(v, p, rf, wf, rk, wk), q, e, CountOf(Opened(v, p, rf, wf, rk, wk).pipes[q], e))
  {
    hide Naming, SlotsOk, EndCount, Opened;
    var u := Opened(v, p, rf, wf, rk, wk);
    OpenedPipes(v, p, rf, wf, rk, wk, q);
    forall g
      ensures IsEnd(u, g, q, e) <==> if q == p then g == (if e == ReadEnd then rf else wf) else IsEnd(v, g, q, e)
    {
      OpenedAt(v, p, rf, wf, rk, wk, g, q, e);
    }
    forall g | IsEnd(v, g, q, e) ensures g in u.files && u.files[g].refCount == v.files[g].refCount {
      OpenedAt(v, p, rf, wf, rk, wk, g, q, e);
    }
    OpenedAt(v, p, rf, wf, rk, wk, rf, q, e);
    hide FilesOk, PipesOk;
    if q == p {
      OneEnd(u, p, e, if e == ReadEnd then rf else wf);
    } else {
      OtherEnds(v, u, q, e, CountOf(v.pipes[q], e));
    }
  }

  lemma OpenedPipes(v: Vfs, p: nat, rf: nat, wf: nat, rk: Fd, wk: Fd, q: nat)
    requires PipesOk(v) && q in Opened(v, p, rf, wf, rk, wk).pipes
    ensures if q == p then Opened(v, p, rf, wf, rk, wk).pipes[q] == PipeEnds(1, 1)
            else q in v.pipes && Opened(v, p, rf, wf, rk, wk).pipes[q] == v.pipes[q]
    ensures q in v.pipes ==> forall e :: EndCount(v, q, e, CountOf(v.pipes[q], e))
  {
    hide EndCount;
  }

  lemma OpenedAt(v: Vfs, p: nat, rf: nat, wf: nat, rk: Fd, wk: Fd, g: nat, q: nat, e: End)
    requires FilesOk(v) && p !in v.pipes && rf !in v.files && wf !in v.files && rf != wf
    ensures var u := Opened(v, p, rf, wf, rk, wk);
            && (IsEnd(u, g, q, e) <==> if q == p then g == (if e == ReadEnd then rf else wf) else IsEnd(v, g, q, e))
            && (g in v.files ==> g in u.files && u.files[g] == v.files[g])
            && rf in u.files && u.files[rf].refCount == 1 && wf in u.files && u.files[wf].refCount == 1
  {
    hide Naming;
  }

  // --------------------------------------------------- what the counts stand for

  /** The descriptors, of all processes, that name an end of pipe `p`. */
  ghost function EndNaming(v: Vfs, p: nat, e: End): set<Fd> { set k | k in v.slots && IsEnd(v, v.slots[k], p, e) }

  /** `readers` and `writers` are the numbers of descriptors naming that end. */
  lemma CountIsDescriptors(v: Vfs, p: nat, e: End)
    requires Ok(v) && p in v.pipes
    ensures CountOf(v.pipes[p], e) == |EndNaming(v, p, e)|
  {
    hide PipesOk, SlotsOk, Naming, EndNaming;
    EndCounted(v, p, e);
    if f :| IsEnd(v, f, p, e) {
      assert v.files[f].refCount == |Naming(v.slots, f)|;
      hide FilesOk;
      EndNamingIs(v, p, e, f);
    } else {
      NoEndNaming(v, p, e);
    }
  }

  lemma EndNamingIs(v: Vfs, p: nat, e: End, f: nat)
    requires IsEnd(v, f, p, e) && forall g :: IsEnd(v, g, p, e) ==> g == f
    ensures EndNaming(v, p, e) == Naming(v.slots, f)
  {}

  lemma NoEndNaming(v: Vfs, p: nat, e: End)
    requires forall f :: !IsEnd(v, f, p, e)
    ensures EndNaming(v, p, e) == {}
  {}

  /** A file object exists exactly while a descriptor names it, a pipe exactly while a
      descriptor names one of its ends. */
  lemma AliveIffNamed(v: Vfs, f: nat, p: nat)
    requires Ok(v)
    ensures f in v.files <==> exists k :: k in v.slots && v.slots[k] == f
    ensures p in v.pipes <==> exists k, e :: k in EndNaming(v, p, e)
  {
    if f in v.files { var k :| k in Naming(v.slots, f); assert v.slots[k] == f; }
    if p in v.pipes {
      CountIsDescriptors(v, p, ReadEnd);
      CountIsDescriptors(v, p, WriteEnd);
      if EndNaming(v, p, ReadEnd) != {} {
        var k :| k in EndNaming(v, p, ReadEnd);
      } else {
        assert EndNaming(v, p, WriteEnd) != {};
        var k :| k in EndNaming(v, p, WriteEnd);
      }
    }
  }

  /** No object changes the pipe or the end it stands for, and none appears. */
  ghost predicate SameObjects(v: Vfs, u: Vfs) {
    forall f :: f in u.files ==> f in v.files && u.files[f].pipe == v.files[f].pipe && u.files[f].end == v.files[f].end
  }

  // ------------------------------------------------------------- the system calls

  /** A process has room for one more descriptor, or for two. */
  ghost predicate RoomForOne(slots: Slots, me: nat) { exists i :: 0 <= i < MAX_FD && Fd(me, i) !in slots }

  ghost predicate RoomForTwo(slots: Slots, me: nat) {
    exists i, j :: 0 <= i < j < MAX_FD && Fd(me, i) !in slots && Fd(me, j) !in slots
  }

  /** `now` has for `child` what `before` has for `parent`, on descriptors below `n`. */
  ghost predicate CopiedTo(before: Slots, now: Slots, parent: nat, child: nat, n: nat) {
    forall i :: 0 <= i < n ==>
      && (Fd(child, i) in now <==> Fd(parent, i) in before)
      && (Fd(child, i) in now ==> now[Fd(child, i)] == before[Fd(parent, i)])
  }

  ghost predicate OthersKept(before: Slots, now: Slots, child: nat) {
    forall k: Fd :: k.process != child ==> (k in now <==> k in before) && (k in now ==> now[k] == before[k])
  }

  lemma NothingCopied(slots: Slots, parent: nat, child: nat)
    ensures OthersKept(slots, slots, child) && CopiedTo(slots, slots, parent, child, 0)
  {}

  /** One more descriptor of the parent looked at. */
  lemma CopyNext(before: Slots, now: Slots, parent: nat, child: nat, i: nat)
    requires parent != child && OthersKept(before, now, child) && CopiedTo(before, now, parent, child, i)
    requires Fd(child, i) !in now
    ensures Fd(parent, i) in now <==> Fd(parent, i) in before
    ensures Fd(parent, i) !in now ==> CopiedTo(before, now, parent, child, i + 1)
    ensures Fd(parent, i) in now ==>
              var next := now[Fd(child, i) := now[Fd(parent, i)]];
              OthersKept(before, next, child) && CopiedTo(before, next, parent, child, i + 1)
  {
    assert Fd(parent, i).process != child;
  }

  /** Closing does not meet pipes that no object stands on. */
  lemma CloseAside(v: Vfs, k: Fd, aside: set<nat>)
    requires Closable(v, k) && v.files[v.slots[k]].pipe !in aside
    ensures Closable(v.(pipes := v.pipes - aside), k)
    ensures Close(v.(pipes := v.pipes - aside), k) == Close(v, k).(pipes := Close(v, k).pipes - aside)
  {
    var u := v.(pipes := v.pipes - aside);
    assert Close(u, k).pipes == Close(v, k).pipes - aside;
  }

  /** A read end that is opened and closed again leaves the pipe with its writer. */
  lemma HalfOpened(v: Vfs, p: nat, rf: nat, k: Fd)
    requires p !in v.pipes && rf !in v.files && k !in v.slots
    ensures var u := Vfs(v.slots[k := rf], v.files[rf := File(ReadEnd, p, 1)], v.pipes[p := PipeEnds(1, 1)]);
            Closable(u, k) && Close(u, k) == v.(pipes := v.pipes[p := PipeEnds(0, 1)])
  {
    var u := Vfs(v.slots[k := rf], v.files[rf := File(ReadEnd, p, 1)], v.pipes[p := PipeEnds(1, 1)]);
    assert Close(u, k).slots == v.slots && Close(u, k).files == v.files;
  }

  class Descriptors {
    var slots: Slots
    var files: map<nat, File>
    var pipes: map<nat, PipeEnds>
    /** Pipes that count a writer although no descriptor stands for it. */
    ghost var leaked: set<nat>

    /** Everything in memory. */
    ghost function All(): Vfs
      reads this
    {
      Vfs(slots, files, pipes)
    }

    /** Without what leaked. */
    ghost function V(): Vfs
      reads this
    {
      Vfs(slots, files, pipes - leaked)
    }

    ghost predicate Valid()
      reads this
    {
      Ok(V()) && forall p :: p in leaked ==> p in pipes && pipes[p] == PipeEnds(0, 1)
    }

    constructor ()
      ensures Valid() && slots == map[] && files == map[] && pipes == map[] && leaked == {}
    {
      slots, files, pipes, leaked := map[], map[], map[], {};
    }

    /** `alloc_fd`: the lowest free descriptor of a process. */
    method AllocFd(me: nat) returns (ok: bool, n: nat)
      ensures ok ==> n < MAX_FD && Fd(me, n) !in slots && forall j :: 0 <= j < n ==> Fd(me, j) in slots
      ensures !ok ==> forall j :: 0 <= j < MAX_FD ==> Fd(me, j) in slots
    {
      for i := 0 to MAX_FD
        invariant forall j :: 0 <= j < i ==> Fd(me, j) in slots
      {
        if Fd(me, i) !in slots { return true, i; }
      }
      return false, 0;
    }

    /** `vfs_pipe`: `p`, `rf` and `wf` are the new pipe and the new file objects, `gotR` and
        `gotW` say whether `alloc_file` had one to give. When only the read end could be opened
        it is closed again; the pipe then stays behind with a writer that nothing can close. */
    method Pipe(me: nat, p: nat, rf: nat, wf: nat, gotR: bool, gotW: bool) returns (r: int)
      requires Valid() && p !in pipes && rf !in files && wf !in files && rf != wf
      modifies this
      ensures Valid() && (r == 0 || r == -1)
      ensures r == 0 <==> gotR && gotW && RoomForTwo(old(slots), me)
      ensures r == 0 ==> leaked == old(leaked) && exists i, j ::
                && 0 <= i < j < MAX_FD && Fd(me, i) !in old(slots) && Fd(me, j) !in old(slots)
                && V() == Opened(old(V()), p, rf, wf, Fd(me, i), Fd(me, j))
      ensures r == -1 ==> V() == old(V())
      ensures r == -1 ==> if gotR && RoomForOne(old(slots), me)
                          then pipes == old(pipes)[p := PipeEnds(0, 1)] && leaked == old(leaked) + {p}
                          else pipes == old(pipes) && leaked == old(leaked)
    {
      hide SlotsOk, FilesOk, PipesOk, Close, Opened;
      var ok, i := AllocFd(me);
      if !ok || !gotR { return -1; }
      ghost var v, all := V(), All();
      slots := slots[Fd(me, i) := rf];
      files := files[rf := File(ReadEnd, p, 1)];
      pipes := pipes[p := PipeEnds(1, 1)];
      var ok2, j := AllocFd(me);
      if !ok2 || !gotW {
        assert !ok2 ==> forall x :: 0 <= x < MAX_FD && x != i ==> Fd(me, x) in v.slots;
        HalfOpened(all, p, rf, Fd(me, i));
        CloseEntry(Fd(me, i));
        LeftBehind(all.pipes, leaked, p, PipeEnds(0, 1));
        leaked := leaked + {p};
        return -1;
      }
      assert j > i;
      OpenOk(v, p, rf, wf, Fd(me, i), Fd(me, j));
      files := files[wf := File(WriteEnd, p, 1)];
      slots := slots[Fd(me, j) := wf];
      OpenedIs(v, V(), pipes, leaked, p, rf, wf, Fd(me, i), Fd(me, j));
      r := 0;
    }

    /** The body of `vfs_close`: the end's close handler, then the object's count. */
    method CloseEntry(k: Fd)
      requires Closable(All(), k)
      modifies this`slots, this`files, this`pipes
      ensures All() == Close(old(All()), k)
    {
      var f := slots[k];
      var file := files[f];
      var p := pipes[file.pipe];
      p := if file.end == ReadEnd then p.(readers := p.readers - 1) else p.(writers := p.writers - 1);
      pipes := if p.readers == 0 && p.writers == 0 then pipes - {file.pipe} else pipes[file.pipe := p];
      var left := file.refCount - 1;
      files := if left <= 0 then files - {f} else files[f := file.(refCount := left)];
      slots := slots - {k};
    }

    /** `vfs_close`. */
    method CloseFd(me: nat, n: int) returns (r: int)
      requires Valid()
      modifies this
      ensures Valid() && leaked == old(leaked)
      ensures r == if 0 <= n < MAX_FD && Fd(me, n) in old(slots) then 0 else -1
      ensures if r == 0 then slots == old(slots) - {Fd(me, n)} else V() == old(V())
      ensures SameObjects(old(V()), V())
    {
      hide SlotsOk, FilesOk, PipesOk, Naming;
      if n < 0 || n >= MAX_FD { return -1; }
      var k := Fd(me, n);
      if k !in slots { return -1; }
      CloseOk(V(), k);
      CloseAside(All(), k, leaked);
      CloseEntry(k);
      r := 0;
    }

    /** `vfs_dup2`. */
    method Dup2(me: nat, oldfd: int, newfd: int) returns (r: int)
      requires Valid()
      modifies this
      ensures Valid() && leaked == old(leaked)
      ensures r == if 0 <= oldfd < MAX_FD && 0 <= newfd < MAX_FD && Fd(me, oldfd) in old(slots) then newfd else -1
      ensures r == -1 ==> V() == old(V())
      ensures r != -1 ==> slots == old(slots)[Fd(me, newfd) := old(slots)[Fd(me, oldfd)]]
      ensures SameObjects(old(V()), V())
    {
      hide FilesOk, PipesOk;
      if oldfd < 0 || oldfd >= MAX_FD || newfd < 0 || newfd >= MAX_FD { return -1; }
      if Fd(me, oldfd) !in slots { return -1; }
      if oldfd == newfd { return newfd; }
      if Fd(me, newfd) in slots { var _ := CloseFd(me, newfd); }
      Attach(Fd(me, newfd), slots[Fd(me, oldfd)]);
      r := newfd;
    }

    /** `vfs_dup_fd` for one more descriptor of object `f`. */
    method Attach(k: Fd, f: nat)
      requires Valid() && k !in slots && k.number < MAX_FD && f in files
      modifies this
      ensures Valid() && leaked == old(leaked) && slots == old(slots)[k := f] && SameObjects(old(V()), V())
    {
      hide PipesOk, Naming;
      DupOk(V(), k, f);
      ghost var v := V();
      var file := files[f];
      files := files[f := file.(refCount := file.refCount + 1)];
      pipes := pipes[file.pipe := Bump(pipes[file.pipe], file.end)];
      slots := slots[k := f];
      assert pipes - leaked == Dup(v, k, f).pipes;
    }

    /** The table copy of fork: every descriptor of `parent` also for `child`. */
    method Fork(parent: nat, child: nat)
      requires Valid() && parent != child && forall n :: Fd(child, n) !in slots
      modifies this
      ensures Valid() && leaked == old(leaked) && SameObjects(old(V()), V())
      ensures OthersKept(old(slots), slots, child) && CopiedTo(old(slots), slots, parent, child, MAX_FD)
    {
      hide FilesOk, PipesOk, CopiedTo, OthersKept;
      NothingCopied(slots, parent, child);
      for i := 0 to MAX_FD
        invariant Valid() && leaked == old(leaked) && SameObjects(old(V()), V())
        invariant OthersKept(old(slots), slots, child) && CopiedTo(old(slots), slots, parent, child, i)
        invariant forall n :: i <= n ==> Fd(child, n) !in slots
      {
        CopyNext(old(slots), slots, parent, child, i);
        if Fd(parent, i) in slots { Attach(Fd(child, i), slots[Fd(parent, i)]); }
      }
    }
  }

  lemma LeftBehind(pipes: map<nat, PipeEnds>, leaked: set<nat>, p: nat, e: PipeEnds)
    requires p !in pipes
    ensures pipes[p := e] - (leaked + {p}) == pipes - leaked
  {}

  lemma OpenedIs(v: Vfs, u: Vfs, pipes: map<nat, PipeEnds>, leaked: set<nat>, p: nat, rf: nat, wf: nat, rk: Fd, wk: Fd)
    requires u.slots == v.slots[rk := rf][wk := wf] && u.pipes == pipes - leaked && p !in leaked
    requires u.files == v.files[rf := File(ReadEnd, p, 1)][wf := File(WriteEnd, p, 1)]
    requires p in pipes && pipes[p] == PipeEnds(1, 1) && v.pipes == pipes - leaked - {p}
    ensures u == Opened(v, p, rf, wf, rk, wk)
  {
    assert u.pipes == v.pipes[p := PipeEnds(1, 1)];
  }
}
